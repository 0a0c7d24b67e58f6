# Autocenter Jülich: the mobile.de client, the contact endpoint and the brand list

This project is a Dafny model of the logic behind the dealership site of Autocenter Jülich.
It covers three parts of the code.

- **The mobile.de client** (`src/lib/mobilede.js`).
  - It reads the seller id and the API credentials from the environment.
  - It builds HTTP Basic credentials (Base64 of the UTF-8 bytes of `user:password`).
  - It sends two GET requests: all ads of the seller, and one ad by id (the id is percent-encoded).
  - It turns the replies into ads, `null` (404), or errors whose message is cut to 600 characters.
  - `mapAdToUiCar` turns one loosely shaped ad record into the car view-model the pages render:
    title, price, year, mileage, fuel, gearbox, power in PS, location, images, sold flag and
    the raw ad.
- **The contact endpoint** (`POST /api/contact`, `src/app/api/contact/route.js`).
  - It reads and trims the form fields.
  - It checks the privacy agreement first, then the required fields.
  - It builds the SMTP transport from the environment.
  - It sends one mail to the dealership. The HTML body uses `escapeHtml` on every field; the
    plain-text body joins the non-empty lines.
  - It answers 200, 400 or 500 with a JSON body.
- **The brand list of the home page** (`src/app/page.js`). It maps every ad to a car, reads
  each car's `brand`, trims it, drops blanks and duplicates, and sorts the result with the
  German collation. Since the car object has no `brand` key, the model also defines the list
  the way the listing page (`src/app/(Pages)/fahrzeuge/FahrzeugeClient.jsx`) derives brands, from
  the first word of the title, and proves that each brand offered there without a comma selects
  at least one car.

The JavaScript values these functions handle are the datatype `JsValues.Value`. It has
`undefined`, `null`, booleans, integer numbers, `NaN`, strings, arrays and objects. On top
of it the model defines the operators the code uses:

- truthiness, `||`, `??` and `?.`;
- `String(v)` and `Number(v)`, with the predicate `Converts` for the values on which they throw;
- `trim`, `slice`, `join`, `filter(Boolean)`, `replace` and `replaceAll`.

The byte encodings are defined concretely, each with its decoder and a round-trip lemma:

- UTF-8;
- Base64, as in section 4 of RFC 4648;
- the percent-encoding of `encodeURIComponent`.

Things the code does not control become parameters:

- the environment is a value (`MobileDe.Env`, `ContactRoute.SmtpEnv`);
- the network is a function from request to an optional reply (`respond`), none when `fetch` rejects;
- whether the mail server accepts the mail is a flag (`delivered`);
- the collation `localeCompare(.., "de")` is a comparison (`leq`).

Modules: `Wrappers` (Option, Result), `SeqFacts`, `JsValues`, `Encoding`, `MobileDe`,
`ContactRoute`, `HomePage`.

## Model

The rows of the corrected brand list cite the lines of `src/app/page.js` they replace and give, in parentheses, the lines of `src/app/(Pages)/fahrzeuge/FahrzeugeClient.jsx` they follow.

| member | source | states |
|---|---|---|
| JsValues.Trim | src/lib/mobilede.js:103 | the result has no whitespace at either end, is no longer than the input, and is empty exactly when the input is all whitespace |
| JsValues.TrimKeepsMiddle | src/lib/mobilede.js:103 | the trimmed text is a contiguous part of the input with only whitespace before and after it |
| JsValues.TrimIdempotent | src/lib/mobilede.js:103 | trimming twice is trimming once |
| JsValues.Prefix | src/lib/mobilede.js:45-48 | `slice(0, n)`: the first `min(n, length)` characters of the string |
| JsValues.JoinOfTrimmedIsTrimmed | src/lib/mobilede.js:100-103 | joining non-empty trimmed names with single spaces gives a trimmed, non-empty text |
| JsValues.FilterTruthy | src/lib/mobilede.js:101 | `filter(Boolean)` returns only truthy values of the input, keeps every truthy value, and is empty exactly when no value is truthy |
| JsValues.FilterTruthyAppend | src/lib/mobilede.js:101 | the filter keeps order: filtering a concatenation concatenates the filtered parts |
| JsValues.FilterTruthyKeepsTruthy | src/lib/mobilede.js:112 | a list of truthy values passes the filter unchanged |
| JsValues.FilterNonEmpty | src/app/api/contact/route.js:68 | on strings the filter keeps exactly the non-empty entries |
| JsValues.FilterNonEmptyAppend | src/app/api/contact/route.js:59-69 | the string filter keeps order over concatenation |
| JsValues.FilterNonEmptyKeepsNonEmpty | src/app/api/contact/route.js:59-69 | a list of non-empty strings passes the filter unchanged |
| JsValues.ReplaceFirst | src/lib/mobilede.js:130 | `replace(",", ".")` with a string pattern: same length, only the first occurrence is rewritten |
| JsValues.ReplaceFirstAbsent | src/lib/mobilede.js:130 | a text without the pattern is left unchanged |
| JsValues.NatToDecimal | src/lib/mobilede.js:128 | the decimal digits of a number: non-empty, all digits, no leading zero |
| JsValues.DecimalStringHasNoComma | src/lib/mobilede.js:130 | the text of an integer has no comma, so the price rewrite cannot touch it |
| JsValues.StringToNumber | src/lib/mobilede.js:130 | `Number(text)` is a number or NaN, and a blank text is 0 |
| JsValues.NumberOfString | src/lib/mobilede.js:130 | `Number` of a string value is the reading of its text |
| JsValues.DecimalStringRoundTrip | src/lib/mobilede.js:130 | `Number(String(n))` is `n` for every integer |
| JsValues.NonNumericText | src/lib/mobilede.js:130 | a trimmed text that starts with a digit but is not all digits reads as NaN |
| JsValues.ToNumber | src/lib/mobilede.js:106 | `Number(v)` of a value that converts, as ECMAScript ToNumber: a number is itself, null 0, true 1 and false 0, undefined and NaN give NaN, and a string is the reading of its text |
| JsValues.ToJsString | src/lib/mobilede.js:128 | `String(v)` of a value that converts: a string is its own text, and any other non-array value gives a non-empty text |
| Encoding.EncodeScalar | src/lib/mobilede.js:12 | one to four bytes per character; one byte exactly for ASCII; lead and continuation bytes of longer encodings are at least 0x80 |
| Encoding.Utf8RoundTrip | src/lib/mobilede.js:12 | strict UTF-8 decoding of `Buffer.from(s)` gives `s` back |
| Encoding.DecodeFirstOfScalar | src/lib/mobilede.js:12 | the decoder reads exactly the bytes of one encoded character back as that character |
| Encoding.Base64Encode | src/lib/mobilede.js:12 | the Base64 text has 4 characters per started group of 3 bytes |
| Encoding.Base64RoundTrip | src/lib/mobilede.js:12 | decoding the Base64 text of any byte string gives it back |
| Encoding.Base64Alphabet | src/lib/mobilede.js:12 | every character of the Base64 text is from the alphabet of RFC 4648 or the padding `=` |
| Encoding.EncodeUriComponent | src/lib/mobilede.js:64-66 | the encoding holds only unreserved characters and `%`, and leaves unreserved text unchanged |
| Encoding.PercentDecodeOfEncoding | src/lib/mobilede.js:64-66 | percent-decoding the encoding gives the UTF-8 bytes of the text |
| Encoding.UriComponentRoundTrip | src/lib/mobilede.js:64-66 | `decodeURIComponent(encodeURIComponent(s))` is `s` |
| MobileDe.AuthHeader | src/lib/mobilede.js:4-14 | fails with the missing-credentials message exactly when user or password is unset or empty; otherwise "Basic " followed by the Base64 of the UTF-8 bytes of "user:password", whatever the user name holds |
| MobileDe.AuthHeaderRoundTrip | src/lib/mobilede.js:12-13 | a server that decodes the header and splits at the first colon gets user and password back, when the user name has no colon |
| MobileDe.IndexOf | src/lib/mobilede.js:12 | the first position of a character, or none exactly when it is absent |
| MobileDe.SellerId | src/lib/mobilede.js:16-20 | the seller id exactly when it is set and non-empty, else the missing-seller-id error |
| MobileDe.SellerAdsRequest | src/lib/mobilede.js:26-40 | a request is built exactly when seller id, user and password are all set and non-empty; the seller id is checked before the credentials; the request goes to `/seller-api/sellers/<id>/ads` with the Basic header and the mobile.de media type |
| MobileDe.SingleAdRequest | src/lib/mobilede.js:60-75 | a request is built exactly when seller id, user and password are all set and non-empty; the same two checks in the same order; the URL ends with the percent-encoded ad id |
| MobileDe.SingleAdIdStaysInSegment | src/lib/mobilede.js:63-66 | whatever the ad id holds, its encoding has no `/`, `?` or `#` and decodes back to the id |
| MobileDe.ErrorMessage | src/lib/mobilede.js:44-49 | the message is the first `min(600, length)` characters of context, status, status text and body |
| MobileDe.SellerAdsOutcome | src/lib/mobilede.js:42-57 | a non-2xx reply throws the cut message; a non-JSON body throws; the log line throws exactly when `ads` is truthy but neither array nor string (`LogsWithoutError` fails); otherwise the `ads` array, or [] |
| MobileDe.SellerAdsObjectThrows | src/lib/mobilede.js:53-57 | a 2xx reply whose `ads` is an object fails in the log line instead of giving [] |
| MobileDe.SellerAdsGuarded | src/lib/mobilede.js:57 | with a log line that cannot throw, every 2xx JSON reply gives the `ads` array or [] |
| MobileDe.SellerAdsGuardedAgrees | src/lib/mobilede.js:53-57 | the code as written and the guarded reading agree except where the log line throws, and that happens exactly for a truthy `ads` that is neither array nor string |
| MobileDe.SingleAdOutcome | src/lib/mobilede.js:77-89 | null exactly on 404 or on a 2xx reply whose JSON body is `null`; another non-2xx reply throws the cut message; a 2xx reply gives the parsed body, or throws on a non-JSON body |
| MobileDe.FetchSellerAds | src/lib/mobilede.js:26-58 | errors from the environment come first; otherwise the outcome of the reply to the built request, or a rejection when `fetch` itself rejects; every thrown message is at most 600 characters |
| MobileDe.FetchSingleAd | src/lib/mobilede.js:60-90 | errors from the environment come first; otherwise the outcome of the reply to the built request, or a rejection when `fetch` itself rejects; every thrown message is at most 600 characters |
| MobileDe.SingleAdNotFound | src/lib/mobilede.js:77 | with a complete environment, a 404 makes `fetchSingleAd` return null |
| MobileDe.UiCar.Property | src/lib/mobilede.js:127-142 | reading a key that is not one of the literal's own keys gives `undefined` (keys inherited from Object.prototype are not modelled) |
| MobileDe.CarKeyFacts | src/lib/mobilede.js:127-142 | helper: `brand` is not a key of the car object |
| MobileDe.PriceKey | src/lib/mobilede.js:130 | helper, unfolding the `price` branch of `UiCar.Property`: the `price` property reads 0 for a zero price and `Number` of the price text otherwise |
| MobileDe.Title | src/lib/mobilede.js:97-103 | the title is never empty, and is trimmed unless it is the fallback "Anzeige <id>" |
| MobileDe.TitleFallback | src/lib/mobilede.js:129 | with no truthy make, model or model description, the title is "Anzeige <id>" |
| MobileDe.FilterStrValues | src/lib/mobilede.js:100-102 | on strings, `filter(Boolean)` then `join`'s `String` keeps exactly the non-empty strings, in order |
| MobileDe.TitleOfStringNames | src/lib/mobilede.js:97-103 | for string names, the title is the non-empty names joined by spaces and trimmed, or "Anzeige <id>" when that is blank |
| MobileDe.TitleOfNames | src/lib/mobilede.js:97-103 | for trimmed string names, the title is the non-empty names in the order make, model, description, joined by single spaces, or the fallback when all are empty |
| MobileDe.JoinedNames | src/lib/mobilede.js:100-103 | joining the non-empty ones of trimmed names needs no trimming, and is empty exactly when no name is kept |
| MobileDe.Coalesce | src/lib/mobilede.js:120-125 | the `??` chain gives the first value that is neither null nor undefined, or null when there is none |
| MobileDe.Price | src/lib/mobilede.js:120-130 | 0 exactly for a falsy price; otherwise `String(price)` with only its first comma rewritten to a point |
| MobileDe.PriceShadowed | src/lib/mobilede.js:120-130 | a present but falsy higher-priority price field (0 or "") is chosen and makes the price 0 |
| MobileDe.PriceOfNumber | src/lib/mobilede.js:120-130 | a non-zero numeric price comes through unchanged as the `price` property |
| MobileDe.PriceWithThousandsSeparator | src/lib/mobilede.js:130 | the text "12.990,00" becomes "12.990.00", so the `price` property is NaN |
| MobileDe.RoundPs | src/lib/mobilede.js:107 | the integer nearest to kW × 1.35962, within one half |
| MobileDe.PowerKw | src/lib/mobilede.js:106 | `Number(ad?.power \|\| 0)`: 0 for a falsy power, a numeric power itself, the reading of a non-empty text; always a number or NaN |
| MobileDe.PowerOfNumber | src/lib/mobilede.js:106-107 | a non-zero numeric power n in kW gives the car's `power` (:137) Math.round(n × 1.35962) |
| MobileDe.PowerPs | src/lib/mobilede.js:106-107 | null exactly when the kW value is 0 or NaN; otherwise the rounded PS value, within one half of kW × 1.35962 |
| MobileDe.PowerAbsentOrNonNumeric | src/lib/mobilede.js:106-107 | an absent power field, or a non-numeric text, gives null power |
| MobileDe.Refs | src/lib/mobilede.js:111 | one ref per image: the `ref` of each, in order |
| MobileDe.RefsAppend | src/lib/mobilede.js:111 | the mapped refs of a concatenation are the concatenated refs |
| MobileDe.ImageRefs | src/lib/mobilede.js:109-118 | for an `images` array, `filter(Boolean)` of the mapped refs: only truthy refs, every truthy ref kept; [] when `images` is not an array |
| MobileDe.ImageRefsSkipFalsy | src/lib/mobilede.js:109-118 | an image with a falsy ref is skipped: the result is the filtered refs before it followed by those after it |
| MobileDe.Images | src/lib/mobilede.js:139 | the image refs when there are any, else the single placeholder; so never empty, and the placeholder when `images` is not an array |
| MobileDe.ImagesKeepEveryRef | src/lib/mobilede.js:109-118 | when every image has a truthy ref, all refs are kept, one per image, in order |
| MobileDe.Year | src/lib/mobilede.js:131-133 | null exactly for a falsy registration; otherwise the first four characters of its text |
| MobileDe.YearOfRegistration | src/lib/mobilede.js:131-133 | "201905", as text or as a number, gives the year "2019" |
| MobileDe.RegistrationText | src/lib/mobilede.js:132 | helper example for YearOfRegistration: `String(201905)` and `String("201905")` are both "201905" |
| MobileDe.Km | src/lib/mobilede.js:134 | the mileage exactly when it is a number (NaN included), else null |
| MobileDe.NullIfFalsy | src/lib/mobilede.js:135-136 | `v \|\| null`: `v` when it is truthy, null otherwise |
| MobileDe.UiCarOf | src/lib/mobilede.js:127-142 | each field of the car is its function of the ad: id `String(mobileAdId)`, title, price, year, km, fuel and gearbox `\|\| null`, power, images, sold exactly when `reserved` is truthy, the fixed location, the raw ad; no `brand` property |
| MobileDe.MapAdToUiCar | src/lib/mobilede.js:96-143 | throws exactly when `String` or `Number` of a converted field (names, id, power, price, registration) throws (`MapConverts`, built on `JsValues.Converts`); otherwise the car of `UiCarOf`, with a non-empty title and images |
| ContactRoute.FieldText | src/app/api/contact/route.js:7-11 | a trimmed text; "" for a missing or falsy field; the trimmed string for a string field |
| ContactRoute.ReadForm | src/app/api/contact/route.js:7-12 | the subject is never blank: the given subject, or "Kontaktformular"; the agreement is the truthiness of the field |
| ContactRoute.Validate | src/app/api/contact/route.js:14-25 | passes exactly for a complete form; a missing agreement is reported before missing fields |
| ContactRoute.EnvValue | src/app/api/contact/route.js:29-35 | an unset variable is `undefined`, and a variable is truthy exactly when it is set and non-empty |
| ContactRoute.PortFor | src/app/api/contact/route.js:30 | `Number(SMTP_PORT \|\| 587)`: 587 when unset or empty, `n` for the decimal digits of `n`, else a number or NaN |
| ContactRoute.TransportFor | src/app/api/contact/route.js:28-36 | port 587 when SMTP_PORT is unset or empty, the number `n` when it holds the digits of `n`, else a number or NaN; TLS exactly when SMTP_SECURE is "true" |
| ContactRoute.PortOfDecimal | src/app/api/contact/route.js:30 | a port variable holding the decimal text of `n` gives port `n`, "0" included |
| ContactRoute.Sender | src/app/api/contact/route.js:39 | SMTP_FROM when it is set and non-empty, else SMTP_USER |
| ContactRoute.ReplaceAll | src/app/api/contact/route.js:84 | a text without the character is left unchanged |
| ContactRoute.ReplaceAllRemoves | src/app/api/contact/route.js:84 | a pass whose replacement lacks the character leaves none of it |
| ContactRoute.ReplaceAllKeepsOut | src/app/api/contact/route.js:84-88 | a pass adds no character that neither the text nor the replacement holds, so a later pass keeps out what an earlier one removed |
| ContactRoute.ReplaceAllAppend | src/app/api/contact/route.js:84 | a pass over a concatenation is the concatenation of the passes |
| ContactRoute.EscapeHtml | src/app/api/contact/route.js:82-89 | escaped text has no `<`, `>`, `"` or `'`, and text without the five special characters is left unchanged |
| ContactRoute.EscapeChar | src/app/api/contact/route.js:82-89 | an entity or the character itself, never `<`, `>`, `"` or `'` |
| ContactRoute.EscapeEach | src/app/api/contact/route.js:82-89 | character-wise escaping has no `<`, `>`, `"` or `'` and is at least as long as its input |
| ContactRoute.EscapeHtmlOfChar | src/app/api/contact/route.js:82-89 | the five passes on one character give its entity: no pass rewrites an earlier entity |
| ContactRoute.EscapeHtmlPerChar | src/app/api/contact/route.js:82-89 | the chain of passes equals escaping each character on its own, so a user's `&` is escaped once |
| ContactRoute.EscapeHtmlRoundTrip | src/app/api/contact/route.js:82-89 | reading the five entities back gives exactly what the user typed |
| ContactRoute.Html | src/app/api/contact/route.js:41-51 | every markup character occurs in the HTML body exactly as often as in the fixed template (with or without the phone paragraph): user input adds no markup |
| ContactRoute.HtmlCount | src/app/api/contact/route.js:41-51 | every character count of the HTML body is the template's share plus that of the escaped fields |
| ContactRoute.CountZero | src/app/api/contact/route.js:41-51 | a character occurs zero times exactly when it is absent |
| ContactRoute.EscapedFieldsHaveNoMarkup | src/app/api/contact/route.js:44-49 | no escaped field holds a markup character |
| ContactRoute.TextBody | src/app/api/contact/route.js:59-69 | the text body is heading, name, e-mail, the phone line only when a phone was given, subject, and the message only when it is non-empty, joined by newlines; the spacer line is filtered out |
| ContactRoute.KeptLines | src/app/api/contact/route.js:59-68 | `filter(Boolean)` on the seven lines keeps exactly those lines |
| ContactRoute.MailFor | src/app/api/contact/route.js:53-70 | the mail goes to the dealership with the customer's e-mail as reply address; its subject is "Kontaktformular: " followed by the subject; its bodies are the escaped HTML and the joined text lines |
| ContactRoute.Post | src/app/api/contact/route.js:3-79 | a body that is not JSON, or a field whose `String` conversion throws (`FormConverts`, built on `JsValues.Converts`), gives 500; then no agreement gives 400 with the privacy message, and missing fields 400 with the required-fields message; the transport and mail are sent exactly for a convertible complete form; 200 exactly when it is delivered, else 500 |
| ContactRoute.SentMailFields | src/app/api/contact/route.js:53-57 | every sent mail has the fixed recipient and a non-empty, trimmed reply address taken from the e-mail field |
| HomePage.Distinct | src/app/page.js:10-11 | `Array.from(new Set(xs))` has no duplicates and the same members as `xs`; DistinctKeepsFirstOrder gives their order |
| HomePage.DistinctKeepsFirstOrder | src/app/page.js:10-11 | the values come in the order of their first occurrences in `xs` (`indexOf` increases along the result) |
| HomePage.DistinctOfDistinct | src/app/page.js:10-11 | a list without repeats passes the set unchanged |
| HomePage.Insert | src/app/page.js:12 | inserting adds exactly one element, as a multiset, and keeps a list without repeats without repeats |
| HomePage.Sort | src/app/page.js:12 | the sorted list is a permutation of the input and keeps it free of repeats |
| HomePage.InsertSorted | src/app/page.js:12 | inserting into a sorted list keeps it sorted |
| HomePage.SortSorted | src/app/page.js:12 | with a consistent comparator the result is sorted |
| HomePage.BrandLabel | src/app/page.js:11 | `String(brand \|\| "").trim()`: trimmed, "" for a falsy brand, the trimmed text for a string brand |
| HomePage.BrandOptions | src/app/page.js:10-12 | no duplicates; a label is offered exactly when it is non-blank and some brand has it; all trimmed; no more options than cars |
| HomePage.BrandOptionsSorted | src/app/page.js:10-12 | the brand options are in collation order |
| HomePage.CarBrands | src/app/page.js:11 | one brand per car, the car's `brand` property |
| HomePage.MapAds | src/app/page.js:8 | fails exactly when some ad cannot be mapped; otherwise one car per ad, in order, each the car of that ad |
| HomePage.HomeBrands | src/app/page.js:6-12 | a failed fetch or a failed mapping fails the page; otherwise the brand options of the mapped cars |
| HomePage.NoCarHasBrand | src/app/page.js:11 | whatever the cars, the brand options are empty |
| HomePage.HomeBrandsAlwaysEmpty | src/app/page.js:10-12 | whenever the page loads, its brand list is empty |
| HomePage.Split | src/app/page.js:10-12 | (listing page FahrzeugeClient.jsx:89) `split(sep)`: at least one piece, none holding the separator; a text without it is one piece |
| HomePage.SplitJoin | src/app/page.js:10-12 | (listing page FahrzeugeClient.jsx:89) joining the pieces with the separator gives the text back |
| HomePage.SplitAfter | src/app/page.js:10-12 | (listing page FahrzeugeClient.jsx:55, :89) a separator-free text followed by the separator is the first piece, and the rest splits on its own |
| HomePage.SplitOfJoin | src/app/page.js:10-12 | (listing page FahrzeugeClient.jsx:55) splitting a join of separator-free pieces gives the pieces back |
| HomePage.FirstWord | src/app/page.js:10-12 | (listing page FahrzeugeClient.jsx:89) `split(" ")[0]` holds no space, and is the whole title when the title has none |
| HomePage.ListingBrand | src/app/page.js:10-12 | (listing page FahrzeugeClient.jsx:173) `normalizeStr(c.brand \|\| title.split(" ")[0])`: since a car has no `brand`, the trimmed first word of the title |
| HomePage.ListingBrands | src/app/page.js:10-12 | (listing page FahrzeugeClient.jsx:86-91) one listing brand per car, in order |
| HomePage.ListingBrandSources | src/app/page.js:10-12 | (listing page FahrzeugeClient.jsx:89) the brand values whose labels are the listing brands |
| HomePage.ListingBrandOptions | src/app/page.js:10-12 | (listing page FahrzeugeClient.jsx:86-93) no duplicates; a brand is offered exactly when it is non-blank and the listing brand of some car |
| HomePage.ListingHomeBrands | src/app/page.js:6-12 | the brand list derived as the listing page derives it: fails exactly when the page fails, otherwise offers exactly the non-blank listing brands of the cars |
| HomePage.ParseMulti | src/app/page.js:10-12 | (listing page FahrzeugeClient.jsx:51-58) every selected value is non-empty, trimmed and free of commas; ParseMultiOfJoin pins the values |
| HomePage.ParseMultiOfJoin | src/app/page.js:10-12 | (listing page FahrzeugeClient.jsx:51-58, :66) reading back a selection written as `brands.join(",")` gives the selection, for non-empty trimmed comma-free options (the empty selection included) |
| HomePage.ParseMultiOfOption | src/app/page.js:10-12 | (listing page FahrzeugeClient.jsx:51-58) a non-empty trimmed brand without a comma, passed as the `brand` parameter, is read back as itself |
| HomePage.OptionIsListed | src/app/page.js:10-12 | (listing page FahrzeugeClient.jsx:86-93) every offered brand is the listing brand of some car |
| HomePage.OfferedBrandSelectsCars | src/app/page.js:10-12 | (listing page FahrzeugeClient.jsx:186, the test `BrandSelected`) choosing an offered brand without a comma selects exactly the cars with that listing brand, and at least one car |
| HomePage.CommaBrandNotSelected | src/app/page.js:10-12 | (listing page FahrzeugeClient.jsx:51-58, :186) a brand holding a comma is not among the values read back from it, so whenever a part is left the cars listed under it fail the brand test |
| HomePage.ListingBrandIsMake | src/app/page.js:10-12 | (listing page FahrzeugeClient.jsx:89) an ad whose make is a single word, with plain string names, is listed under its make |

## Left out

- Network, I/O and time: `fetch`, `res.text()` and `res.json()` become the `respond` function and the `Reply` fields (no reply stands for a rejected `fetch`); the `cache: "no-store"` option has no effect on the result and is not modelled.
- Environment variables are inputs (`Env`, `SmtpEnv`), not read from a process.
- The `console.log` of `fetchSellerAds` is modelled only as far as it can throw; its output is not.
- nodemailer: `createTransport` builds the `Transport` value, and `sendMail` is the flag `delivered`; SMTP itself is not part of this model.
- `Response.json` is modelled as a status and a body (`ok` or `error`), not as HTTP headers.
- JsValues.StringToNumber: reads only optionally signed decimal integers; decimals, exponents, hexadecimal, `Infinity` and `-0` are read as NaN or 0, because numbers are unbounded integers in this model.
- JsValues.Value: numbers are integers; fractional and floating-point numbers, and precision loss above 2^53, are not modelled.
- MobileDe.RoundPs: computes `Math.round(kw * 1.35962)` in exact arithmetic; the floating-point product could round a value that is extremely close to .5 differently.
- Strings are sequences of Unicode scalar values, not of UTF-16 code units: `slice(0, 600)`, `slice(0, 4)` and `length` count astral characters once, and lone surrogates cannot occur.
- `localeCompare(b, "de")` is the comparison parameter `leq`, and the sort is modelled as a stable insertion sort, which gives the engine's stable result for a comparator that is a total preorder; for other comparators the order of equal or unordered labels may differ.
- JsValues.Value: objects hold only their own keys; keys inherited from Object.prototype (`toString`, `constructor`, ...) read as `undefined` in `Get` and `UiCar.Property`.
- JsValues.ToJsString: returns a text for every value; where `String(v)` throws (an object with its own "toString" key, or an array holding one) the throw is decided by the predicate `Converts`, which `Post`, `MapAdToUiCar` and `MapAds` check before converting. JsValues.ToNumber is used the same way.
- JsValues.ToJsString: the numeric round trip `Number(String(n)) == n` is stated by `DecimalStringRoundTrip`, not by its own contract.
- HomePage.Sort: the insertion sort is stable, but stability is not stated; the contracts give a sorted permutation.
- HomePage.OfferedBrandSelectsCars: covers offered brands without a comma only. A title whose first word holds a comma (description "Golf,1.4 TSI" with no make or model) is listed under "Golf,1.4"; the query splits that option into "Golf" and "1.4", and CommaBrandNotSelected shows its own cars are then not selected.
- The listing page `src/app/(Pages)/fahrzeuge/FahrzeugeClient.jsx` is modelled only for its brand derivation (lines 86-93 and 173), its `parseMulti` and its brand filter (line 186); the `brand` query parameter is taken as already decoded (the URL encoding of `URLSearchParams` is not modelled), and the search text, fuel, gearbox, price and year filters, the sorting and the rendering are not part of this model.
- The React markup of `Home()` (which components receive the brand list) and the rest of the site (`src/app/layout.js`, `next.config.mjs`, the other pages and components) are not part of this model.

## Findings

| source | as written | input that shows it | evidently intended | confidence | as-written member | corrected member |
|---|---|---|---|---|---|---|
| src/app/page.js:11 | the brand list reads `c.brand`, but the car object built by `mapAdToUiCar` (src/lib/mobilede.js:127-142) has no `brand` key | any list of ads, for example one ad with `make` "BMW": the brand list is [] | the brands the listing page derives and filters by (`c.brand \|\| title.split(" ")[0]`, FahrzeugeClient.jsx:89 and :173), here ["BMW"]; each offered brand without a comma then selects at least one car there (`OfferedBrandSelectsCars`) | high, not executed | HomePage.HomeBrandsAlwaysEmpty | HomePage.ListingHomeBrands |
| src/lib/mobilede.js:53-57 | the log line calls `(data?.ads \|\| []).slice(0, 2)` before the `Array.isArray` guard on the returned value | a 2xx reply `{"ads": {}}`: the call throws a TypeError | the guard decides: the call returns [] | medium, not executed | MobileDe.SellerAdsObjectThrows | MobileDe.SellerAdsGuardedAgrees |
