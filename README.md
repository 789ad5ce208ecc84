# Date-triggered landing-page redirect, modelled in Dafny

The system sends visitors from an organisation's landing page to a campaign
page on configured dates, and gives them a way back. It has four browser scripts.

- **Dispatchers** run on the original site.
  - `redirect-script.js` is configured through `window.landingPageRedirectConfig` and matches exact `YYYY-MM-DD` dates.
  - `landing-page-gtm-tag.js` is a tag-manager tag. Its table, keyed by recurring `MM-DD` dates, is built into the tag.

  On a hit, a dispatcher first writes a suppression cookie. It then navigates to the destination. The destination address carries the visitor's query parameters, `was-redirected`, and `originating-url` set to the address the visitor left. `no-redirect` in the address only writes the suppression cookie. A suppression cookie that is already set stops the run.
- **Return banners** run on the destination.
  - `target-page-script.js` is configured through `window.targetPageConfig` and validates addresses.
  - `en-code-block.js` is an older code block with built-in constants and no validation.

  A banner moves `originating-url` into an `originatingUrl` cookie and out of the address bar. It shows a bar whose link text names the originating domain. Clicking the link leads back to the originating address, the referrer, or the page itself, with `no-redirect` added.

The model has these parts.

- A run of a script is a `class Run`.
  - Its inputs are constants: the page as the script reads it, the configuration, today's date, the URL parser and the percent-encoding codec.
  - It has one field, `effects`, a log of what the run does to the page and the browser, in order: cookie writes, navigation, `history.replaceState`, and the banner.
  - Its `Execute` method follows the script's statements and early returns. Its `ensures` ties the log to a specification function (`Dispatch` or `Load`). The properties are proved about that function.
- The browser's cookie store is a sequence of stored cookies with expiry times. `document.cookie` is the text the store yields at a given time. This lets the model state what one run's cookie write means for a later run.
- Whole-system properties that connect separate runs are in `Protocol`:
  - at most one redirect per suppression window;
  - the handoff of `originating-url`;
  - the banner cookie;
  - the way back with `no-redirect`.

Modules:

- `Text`: string helpers (`split`, `indexOf`, `replace`, `padStart`, numerals).
- `Cookies`: `getCookie`, cookie writes, the cookie store.
- `QueryParams`: `URLSearchParams`.
- `Urls`: URL records, `isValidUrl`, `buildRedirectUrl`, the `https?://` pattern.
- `Calendar`: dates and date validation.
- `Browser`: the page and the effects.
- `Banner`: what the two banners share.
- `RedirectScript`, `LandingPageGtmTag`, `TargetPageScript`, `EnCodeBlock`: one module per script.
- `Protocol`: properties across runs.

## Model

| member | source | states |
|---|---|---|
| Text.Split | redirect-script.js:55 | `split(";")` always yields at least one piece |
| Text.SplitJoin | redirect-script.js:55 | splitting pieces joined by a separator they do not contain gives the pieces back |
| Text.TrimLeadingSpaces | redirect-script.js:57 | only leading U+0020 characters are removed; the rest is a suffix that does not start with a space |
| Text.IndexOf | target-page-script.js:156-166 | `indexOf`, as `replace` with a string pattern searches for it, finds the first occurrence, and `None` means there is none |
| Text.ReplaceFirst | target-page-script.js:156-166 | `replace` with a string pattern replaces only the first occurrence; without `$` patterns the replacement is inserted literally; with no occurrence the text is unchanged |
| Text.NatToStringValue | redirect-script.js:148-153 | `String(n)` reads back as `n` |
| Text.Pad2Value | redirect-script.js:151-153 | `padStart(2, "0")` of a number below 100 has two digits and reads back as the number |
| Text.FourDigitYear | redirect-script.js:149 | a year from 1000 to 9999 prints as four digits |
| Cookies.GetCookie | redirect-script.js:53-61 | the loop returns the value after `name=` in the first piece that starts with it once leading spaces are removed, or `null` |
| Cookies.FirstMatchMeaning | redirect-script.js:56-60 | `null` exactly when no trimmed piece starts with `name=`; otherwise the value comes from the first piece that does |
| Cookies.LeadingSpaceIgnored | redirect-script.js:57 | a leading space in the cookie text changes no lookup |
| Cookies.GetCookieReadsStore | redirect-script.js:53-61 | on the text the browser yields to a page, `getCookie` reads the stored value of that name that the page is shown: unexpired, and not `Secure` unless the page is `https:` |
| Cookies.ApplyThenLookup | redirect-script.js:63-70 | after a write, the name reads the written value until it expires, and a `Secure` write only on `https:` pages; other names are unaffected |
| Cookies.ApplyKeepsWellFormed | redirect-script.js:69-70 | writing a well-formed name and value keeps the store readable by `getCookie` |
| Cookies.SecureNameHidden | redirect-script.js:67-69 | a stored `Secure` cookie, alive when it was last looked at, leaves its name unanswered for a page that is not `https:` from then on, expired or not |
| Cookies.ExpiryDaysAsSeconds | redirect-script.js:65-66 | a days-based expiry is the seconds-based one for the same span; it lies in the future exactly when the days are positive |
| Banner.OriginatingUrlCookieWellFormed | target-page-script.js:80-84 | the cookie name `originatingUrl` is one the browser stores and `getCookie` finds unchanged |
| QueryParams.Get | target-page-script.js:79 | `get` answers exactly when `has` holds, with the value of the first pair of that name |
| QueryParams.GetConcat | redirect-script.js:100-102 | on parameters followed by more parameters, the first part answers `get` when it has the name |
| QueryParams.DeleteKeepsOthers | target-page-script.js:88 | `delete` leaves `get` of every other name unchanged |
| QueryParams.DeleteCount | target-page-script.js:88 | after `delete` no pair of that name is left |
| QueryParams.SetMeaning | target-page-script.js:221 | after `set` there is exactly one pair of the name, with the new value, and the other pairs are unchanged |
| QueryParams.ParseSerialize | redirect-script.js:100 | `new URLSearchParams(params.toString())` gives the same pairs in the same order |
| QueryParams.SerializeEmpty | target-page-script.js:89-92 | `toString()` is empty exactly when there are no pairs |
| Urls.IsValidUrlMeaning | redirect-script.js:86-94 | valid exactly when the text is non-empty, the parser accepts it, and the protocol is `http:` or `https:` |
| Urls.BuildRedirectUrl | redirect-script.js:98-110 | the destination is kept verbatim, then `?` if it has no `?` and `&` otherwise |
| Urls.RedirectParamsMeaning | redirect-script.js:100-102 | the parameters sent on are the current ones, in order, then `was-redirected=` and `originating-url=<href>` |
| Urls.RedirectUrlRoundTrip | redirect-script.js:98-110 | for a destination without `#`, the built address's query reads back as the destination's query, then the current parameters, then the two markers |
| Urls.FragmentSwallowsMarkers | redirect-script.js:103-104 | for a destination with `#`, the appended parameters land in the fragment and the query is the destination's own |
| Urls.UrlStringQuery | target-page-script.js:221-223 | the address `toString()` writes reads back with the URL's parameters |
| Urls.HttpHostMatch | target-page-script.js:136-139 | `match(/https?:\/\/([^\/]+)/)` fails exactly when no position starts the pattern; a capture is non-empty and holds no `/` |
| Urls.HttpHostOfPrefix | target-page-script.js:136-139 | for `https://host/...` or `http://host/...`, the capture is the host |
| Calendar.DaysInMonth | redirect-script.js:127-132 | months have 28 to 31 days, and 29 exactly for February of a Gregorian leap year |
| Calendar.Normalize | redirect-script.js:127 | `new Date(y, m - 1, d)` keeps the date exactly when the day exists, and rolls over into the next month otherwise |
| Calendar.IsValidIsoDateMeaning | redirect-script.js:113-133 | `isValidDate` accepts exactly the `YYYY-MM-DD` strings with a year from 1000 to 9999 that name a real day |
| Calendar.IsoExamples | redirect-script.js:113-133 | 2024-02-29 is accepted; 2023-02-29 and 2024-04-31 are rejected |
| Calendar.IsoRangeExamples | redirect-script.js:122-124 | month 13 and year 0999 are rejected |
| Calendar.FormatIsoRoundTrip | redirect-script.js:147-154 | today's date, formatted, is a valid key and reads back as today |
| Calendar.CurrentIsoDateMeaning | redirect-script.js:137-155 | `simulate-date` is used exactly when it is a valid date; otherwise today is used; the key is valid |
| Calendar.IsValidMonthDayMeaning | landing-page-gtm-tag.js:84-90 | an `MM-DD` value is accepted exactly when the day exists in that month of a leap year, so 02-29 is accepted |
| Calendar.MonthDayExamples | landing-page-gtm-tag.js:84-90 | 02-29 is accepted; 02-30, 04-31 and 00-10 are rejected |
| Calendar.FormatMonthDayRoundTrip | landing-page-gtm-tag.js:103-108 | today's `MM-DD` is a valid key that reads back as today's month and day |
| Calendar.RecurringKey | landing-page-gtm-tag.js:103-108 | two dates give the same key exactly when they share month and day |
| Calendar.CurrentMonthDayMeaning | landing-page-gtm-tag.js:94-109 | `simulate-date` is used exactly when it is a valid `MM-DD` value; otherwise today's key is used; the key is valid |
| Browser.BannerOnlyAfter | target-page-script.js:182-194 | the banner, added last, adds no cookie write or address rewrite and leaves the earlier effects in place |
| Banner.AddressWithoutOriginatingMeaning | target-page-script.js:88-92 | the rewritten address drops every `originating-url` and keeps the other parameters in order; it is the bare path exactly when none remain |
| Banner.WithNoRedirectMeaning | target-page-script.js:220-221 | the back link differs from its source only in having exactly one empty `no-redirect` |
| Banner.BackLinkMeaning | target-page-script.js:220-223 | the back link's text starts with the source address and its query reads back with exactly one empty `no-redirect` and the other parameters |
| RedirectScript.CookieName | redirect-script.js:43 | an absent or empty cookie name falls back to `redirectSuppressed` |
| RedirectScript.DurationDays | redirect-script.js:44-47 | only an absent duration falls back to 1 day; 0 is kept |
| RedirectScript.Run.SetCookieForDays | redirect-script.js:64-71 | one cookie write with `SameSite=Lax`, and `Secure` only on `https:` |
| RedirectScript.Run.Execute | redirect-script.js:16-187 | the run's effects are those of the dispatch specification |
| RedirectScript.Run.AfterGuards | redirect-script.js:75-83 | once the guards pass, the opt-out, the suppression check and the lookup give the dispatch specification's effects |
| RedirectScript.Run.LookUpToday | redirect-script.js:137-187 | with no opt-out and no suppression cookie, the date lookup, the destination check and the redirect give the dispatch specification's effects |
| RedirectScript.UnconfiguredDoesNothing | redirect-script.js:18-40 | without configuration, without a table, or with an empty table, nothing happens, not even for `no-redirect` |
| RedirectScript.OptOutWritesCookie | redirect-script.js:75-78 | `no-redirect` only writes the suppression cookie |
| RedirectScript.SuppressedDoesNothing | redirect-script.js:81-83 | a non-empty suppression cookie stops the run |
| RedirectScript.NavigatesExactlyOnHit | redirect-script.js:158-187 | the run navigates exactly when every check passes; it then writes the cookie first and goes to the built address; otherwise it does nothing |
| RedirectScript.SuppressionWriteMeaning | redirect-script.js:64-71 | the suppression cookie is `true`, expires after the configured number of days (1 by default), is `SameSite=Lax`, and is `Secure` exactly on `https:` |
| LandingPageGtmTag.Run.SetCookieForDays | landing-page-gtm-tag.js:48-53 | one cookie write with `path=/` only |
| LandingPageGtmTag.Run.Execute | landing-page-gtm-tag.js:33-121 | the run's effects are those of the dispatch specification |
| LandingPageGtmTag.Run.LookUpToday | landing-page-gtm-tag.js:94-121 | with no opt-out and no suppression cookie, the lookup and the redirect give the dispatch specification's effects |
| LandingPageGtmTag.OptOutWritesCookie | landing-page-gtm-tag.js:57-60 | `no-redirect` only writes the cookie, even when the table is empty |
| LandingPageGtmTag.NavigatesExactlyOnHit | landing-page-gtm-tag.js:57-120 | the tag navigates exactly when it is not suppressed and today's key has a non-empty destination, whatever its scheme; it then writes the cookie first |
| LandingPageGtmTag.SameDayEveryYear | landing-page-gtm-tag.js:103-108 | without `simulate-date`, the outcome depends on the month and day only |
| LandingPageGtmTag.ShippedTableOnNewYearsEve | landing-page-gtm-tag.js:14-30 | with the table as shipped, a fresh visitor on 31 December is marked for a day and sent to the donation page |
| LandingPageGtmTag.SuppressionWriteMeaning | landing-page-gtm-tag.js:48-53 | the tag's cookie is `redirectSuppressed=true` for one day, with neither `SameSite` nor `Secure`, and with a name and value the browser stores unchanged |
| TargetPageScript.ExpirationSeconds | target-page-script.js:38 | an absent or zero lifetime falls back to 1800 seconds |
| TargetPageScript.StripHtmlSuffix | target-page-script.js:122 | only a trailing lower-case `.html` or `.htm` is removed |
| TargetPageScript.FileLabelOfLastSegment | target-page-script.js:116-125 | a `file:` path ending in a named segment is shown by that name without a lower-case `.html`/`.htm`, or by "the original page" when nothing of it is left |
| TargetPageScript.FileLabelWithoutSegments | target-page-script.js:116-125 | a `file:` path without any non-empty segment is shown by "the original page" |
| TargetPageScript.FileLabelHasNoSlash | target-page-script.js:118-122 | that name is a single path segment, never a path |
| TargetPageScript.LastHtm | target-page-script.js:142 | the greedy `[^\/]+` backs off to the last `.htm`, in any case |
| TargetPageScript.FileNameMatch | target-page-script.js:142 | a capture of the `file:///` pattern has at least five characters and no `/` |
| TargetPageScript.GetDomainFromUrl | target-page-script.js:107-149 | empty input gives `null`; an `http`/`https` address gives its host name; a `file:` address gives the label of its path, a name without `/`; another scheme gives its host name, or `null` without one; unparsed text gives the `https?://` capture, else the `file:` capture without `.html`/`.htm`, else `null` |
| TargetPageScript.ReturnLinkTextMeaning | target-page-script.js:153-167 | the first `{domain}` is replaced by the source's domain, or by "the website" when there is no source or its domain is missing, empty or the source itself |
| TargetPageScript.LinkTextShowsHost | target-page-script.js:153-167 | an `http`/`https` originating address is shown by its host name |
| TargetPageScript.BannerEffects | target-page-script.js:182-194 | the banner part of a load holds only the banner |
| TargetPageScript.ClickTarget | target-page-script.js:203-230 | the click navigates exactly when the fallback address is valid `http`/`https` |
| TargetPageScript.Run.SetCookieForSeconds | target-page-script.js:57-63 | one cookie write with `SameSite=Lax`, and `Secure` only on `https:` |
| TargetPageScript.Run.Execute | target-page-script.js:14-201 | the load's effects are those of the load specification |
| TargetPageScript.Run.SaveParam | target-page-script.js:83-102 | saving the parameter appends exactly the save specification's cookie write and address rewrite |
| TargetPageScript.Run.ShowReturnBanner | target-page-script.js:180-194 | showing the banner appends exactly the banner specification's effects |
| TargetPageScript.Run.Click | target-page-script.js:203-230 | a click adds the navigation the click specification gives, or nothing |
| TargetPageScript.SavesOnlyValidParam | target-page-script.js:82-102 | the cookie is written exactly when `originating-url` is non-empty and valid; the address is rewritten exactly when, in addition, `replaceState` exists; both come first |
| TargetPageScript.SaveEffectsMeaning | target-page-script.js:83-97 | saving writes the cookie exactly for a valid parameter, and rewrites the address exactly when it also can |
| TargetPageScript.BannerMeaning | target-page-script.js:180-189 | the banner shows exactly when the page has a body and the visitor was redirected, is in a frame, or had the cookie; its link is the originating address or `#`, and the parameter even when it was not saved |
| TargetPageScript.UnconfiguredDoesNothing | target-page-script.js:16-34 | without a configuration or a non-empty template, nothing happens |
| TargetPageScript.ClickTargetMeaning | target-page-script.js:208-223 | the fallback order is originating address, then referrer, then this page; a valid target gets exactly one empty `no-redirect` and keeps its other parameters |
| EnCodeBlock.FillShippedTemplate | en-code-block.js:10 | the built-in template gives "Click here to continue to " followed by the domain, when the domain has no `$` pattern |
| EnCodeBlock.FillAfterLead | en-code-block.js:88-91 | a template of a lead without `{` followed by `{domain}` becomes the lead followed by the domain, when the domain has no `$` pattern |
| EnCodeBlock.ReturnLinkTextMeaning | en-code-block.js:85-92 | the text is the built-in template filled with "the website" without a source, otherwise with the domain as extracted, which may be empty or the source itself; when that domain has no `$`, the text is the lead followed by it |
| EnCodeBlock.EmptyHostShownEmpty | en-code-block.js:72-76 | an address the parser accepts without a host leaves the text as the lead alone |
| EnCodeBlock.UnparsedSourceShownWhole | en-code-block.js:77-79 | unparsable text without an `http(s)://` host and without `$` is shown whole |
| EnCodeBlock.UnparsedHttpShowsHost | en-code-block.js:77-79 | unparsable text starting with `https://host/`, with no `$` in the host, is shown by the host |
| EnCodeBlock.BannerEffects | en-code-block.js:107-119 | the banner part of a load holds only the banner |
| EnCodeBlock.Run.SetCookieForSeconds | en-code-block.js:41-45 | one cookie write with `path=/` only |
| EnCodeBlock.Run.Execute | en-code-block.js:22-149 | the load's effects are those of the load specification |
| EnCodeBlock.Run.Click | en-code-block.js:128-148 | a click always navigates, to the click specification's target |
| EnCodeBlock.SavesAnyParam | en-code-block.js:47-67 | any non-empty `originating-url` is saved, valid or not; the address is rewritten when `replaceState` exists; the cookie write comes first |
| EnCodeBlock.OriginatingWriteMeaning | en-code-block.js:41-49 | the cookie lives 1800 seconds and has neither `SameSite` nor `Secure` |
| EnCodeBlock.BannerMeaning | en-code-block.js:105-114 | the banner shows exactly when the page has a body and the visitor was redirected, is in a frame, or had the cookie; its link is the originating address or `#` |
| EnCodeBlock.ClickTargetMeaning | en-code-block.js:132-147 | the fallback order is as in the validating banner; any parsable target gets exactly one empty `no-redirect`; an unparsable one becomes this page with `?no-redirect` |
| Protocol.ReadBackAfterWrite | redirect-script.js:53-71 | a cookie the browser stored is what a later `getCookie` of that name reads until it expires, and a `Secure` one only on an `https:` page; otherwise the read finds nothing |
| Protocol.RedirectAtMostOncePerWindow | redirect-script.js:180-184 | after a redirect, a later load on any date before the cookie expires does not redirect again, provided the later load is over `https:` whenever the first was, and the first write was not refused over a `Secure` cookie of that name still alive at the first load |
| Protocol.RedirectAgainOverHttp | redirect-script.js:63-70 | the suppression cookie written on an `https:` page is `Secure`, so a later `http:` load reads no cookie and redirects again on a date with a usable destination |
| Protocol.RedirectRepeatsUnderSecureCookie | redirect-script.js:63-70 | while a `Secure` suppression cookie of that name is stored and not expired at the first load, an `http:` page's write leaves the store unchanged, an `http:` load reads no cookie, and it redirects again on a date with a usable destination |
| Protocol.NonPositiveDurationSuppressesNothing | redirect-script.js:44-47 | a duration of zero days or less writes an already-expired cookie that clears any earlier one the page may replace |
| Protocol.ExpiredWriteForgotten | redirect-script.js:64-71 | a cookie written with an expiry that is not after now is read by no later `getCookie` |
| Protocol.SecureWriteHiddenFromHttp | redirect-script.js:67-69 | a `Secure` write leaves nothing of that name for an `http:` page to read |
| Protocol.GtmAtMostOncePerDay | landing-page-gtm-tag.js:114-120 | after a redirect, the tag does not redirect again within a day, over `http:` as well, unless its `http:` write was refused over a still-alive `Secure` cookie of that name |
| Protocol.SuppressedStaysPut | redirect-script.js:81-83 | a page with a non-empty suppression cookie is never sent away |
| Protocol.GtmSuppressedStaysPut | landing-page-gtm-tag.js:63-65 | a page with a non-empty suppression cookie is never sent away by the tag |
| Protocol.Handoff | redirect-script.js:98-110 | the destination sees `was-redirected`, so it shows the banner whenever it has a body; its `originating-url` is the visitor's address unless the destination's or the visitor's own query already had one |
| Protocol.HandoffToTargetPage | target-page-script.js:79-104 | on a clean handoff, both banners take the visitor's address as the originating one; the validating banner saves it exactly when it is valid, the older one always |
| Protocol.TargetPageRemembers | target-page-script.js:80-104 | until the cookie expires, a later load without the parameter still knows the originating address and shows the banner whenever it has a body, provided it is over `https:` whenever the first load was, and the first write was not refused over a still-alive `Secure` cookie |
| Protocol.TargetPageForgetsOverHttp | target-page-script.js:57-63 | the `originatingUrl` cookie written on an `https:` page is `Secure`: a later `http:` load without the parameter has no originating address and shows the banner only when redirected or in a frame |
| Protocol.EnCodeBlockRemembers | en-code-block.js:27-69 | the same for the code block, for half an hour and over `http:` as well, unless its `http:` write was refused over a still-alive `Secure` cookie |
| Protocol.OriginatingReadBack | target-page-script.js:80-84 | an `originatingUrl` cookie the browser stored is read back by a later load it is shown to until it expires |
| Protocol.TargetPageBackLinkOptsOut | target-page-script.js:220-223 | the page the back link leads to carries `no-redirect`, so neither dispatcher sends the visitor away again |
| Protocol.EnCodeBlockBackLinkOptsOut | en-code-block.js:138-141 | the same for the code block's back link whenever the parser accepts its target |
| Protocol.OnlyOlderBannerFollowsOtherSchemes | en-code-block.js:134-141 | an originating address with a non-`http(s)` scheme is not followed by the validating banner, but is followed by the code block |

## Left out

- Layout is not modelled: style strings, `bannerStyle`/`linkStyle`, margin adjustment, the resize listener and `requestAnimationFrame`. Console output is left out too. None of them changes what a run does to the cookies, the address or the navigation.
- The WHATWG URL parser is a function parameter (`Parser`), and percent-encoding is a codec parameter assumed to round-trip. `new URL` and `URLSearchParams` encoding are standards of their own. The proofs assume of them only what each lemma's `requires` states.
- The clock and the local calendar are inputs. `toUTCString` is not modelled, so a cookie's expiry is kept in milliseconds. Local time zones and daylight-saving changes are not modelled.
- `try`/`catch` paths that the modelled operations cannot reach are left out: the `catch` of `buildRedirectUrl`, the `catch` around the address rewrite, and the `catch` of the validating banner's click handler. The one exception is the `replaceState` `SecurityError` for a path that starts with `//`, which is not modelled.
- The browser's cookie store is modelled only for well-formed names and values. Well-formed means no `;` or `=` in names, no `;` and no edge whitespace in values. The cross-run lemmas require this of the written name and value.
- Protocol.RedirectAtMostOncePerWindow: requires a well-formed configured cookie name. A configured name containing `=` or `;` is not covered.
- Configuration values of the wrong JavaScript type, NaN, fractional numbers and the `setTime` range are not modelled. Configurations are well-typed `Option` fields.
- Calendar.CurrentIsoDateMeaning: for years outside 1000 to 9999 the formatted date is not claimed valid. `String(year)` is modelled for any year, but such a key misses any table whose keys are `YYYY-MM-DD` dates.
- Protocol.EnCodeBlockBackLinkOptsOut: covers only a target the parser accepts. Whether `?no-redirect` on an unparsable target reads back as `no-redirect` depends on the codec's decoding of that text, which the model leaves abstract.
- Neither dispatcher gives exact dates precedence over recurring ones, and neither accepts `MM-DD-YYYY` keys; the model has neither.
- Cookies.Write: of the browser's reasons to refuse a cookie write, only the one about `Secure` cookies is modelled: a page that is not `https:` may neither set a `Secure` cookie nor overwrite one that has not yet expired. Cookie prefixes, size limits and the `Domain` attribute do not arise in the scripts' writes.
- Protocol.RedirectAtMostOncePerWindow: the store and the jar are those of a top-level or same-site document. In a page framed by another site, the browser may neither store nor show the `SameSite=Lax` suppression cookie, and the claim is not made there.
- Protocol.GtmAtMostOncePerDay: holds for a top-level or same-site document only. Browsers treat a cookie without `SameSite` as `Lax` or partition or block it in a page framed by another site.
- Protocol.TargetPageRemembers: holds for a top-level or same-site document only. A banner page framed by another site (one of the cases in which it shows) may not store or see the `SameSite=Lax` `originatingUrl` cookie.
- Protocol.EnCodeBlockRemembers: holds for a top-level or same-site document only, for the same reason as the tag's cookie.
