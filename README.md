# batoto-parser core, modelled in Dafny

This project models the parts of the batoto-parser package that do real work on their
inputs, and proves properties of them:

* **Chapter pages** (`get_pages` and `abs`, which appear in both `src/batoto_parser/parser.py`
  and `bato_parser.py` with the same logic). The model resolves the chapter URL and walks
  the page's `<script>` texts in order. In a script it finds the `imgHttps` array literal and
  the `batoPass` and `batoWord` assignments, using the same regular expressions scanned
  explicitly. It then evaluates the password and decrypts the query strings. Each image URL
  is zipped with its query string, and one `MangaPage` is built per image.
* **The payload** (`evp_bytes_to_key` and `decrypt_batoto` in `utils.py`). This is OpenSSL's
  `Salted__` framing, MD5 key derivation (`EVP_BytesToKey`), AES-256-CBC decryption and the
  package's lenient PKCS#7 strip.
* **Input validation** (`src/batoto_parser/validators.py`): page numbers, sort orders, search
  queries, domains and URLs, including how `urlparse` finds the scheme and the network
  location.

Modules:

| file | module | contents |
|---|---|---|
| `wrappers.dfy` | `Wrappers` | `Option` and `Result`, which stand in for `None` and for raised exceptions |
| `text.dfy` | `Text` | `str.strip`, `lower`, `startswith`, `in`, `find` and `replace(pat, "")` on `seq<char>` |
| `payload.dfy` | `Payload` | key derivation, payload framing, padding strip, `DecryptBatoto` |
| `pages.dfy` | `Pages` | `Abs`, the regular expressions, recombination, `Resolve` and the `GetPages` method |
| `validators.dfy` | `Validators` | the validators and the `urlparse` subset they depend on |

Foreign code becomes a function-valued field of a record. This covers MD5, AES-CBC
decryption, UTF-8 encoding and decoding, base64, `json.loads`, SHA-1, `urljoin`, the
JavaScript evaluator, and the HTTP fetch together with HTML parsing. Everything proved holds
whatever those functions do, except where a lemma states an assumption about them. Three
lemmas do: `ShortPayloadFails` requires a cipher that preserves length, `DecryptRoundTrip`
requires that decryption gives back the padded message, and `AbsIdempotent` requires that
joining a path onto the site gives a URL starting with `http`.

The code loops in `evp_bytes_to_key` and in `get_pages`, so both are methods with loops:
`Payload.EvpBytesToKey`, `Pages.GetPages` and `Pages.BuildPages`. Each is proved equal to a
specification function (`DeriveKey`, `Resolve`, `PagesFor` after `Recombine`), and the
properties are proved as lemmas about those functions.

Some of the code's behaviour is easy to overlook, and the model keeps it as the code has it:

* The padding strip is lenient. It drops `n` bytes whenever the last byte `n` is in 1..16 and
  never checks the pad bytes. Any other last byte leaves the plaintext as it is.
* Query strings beyond the number of images are ignored; they do not raise an error.
* An empty query string still adds `?` to its image URL.
* `get_pages` only checks the evaluated password for `None`. With the root `utils.py`
  modelled here, an empty password goes on to decryption. The package's own `utils.py` is
  not part of this model, and its tests show it refusing an empty password (see "## Left out").

## Model

| member | source | states |
|---|---|---|
| Payload.KeyStream | utils.py:11-15 | the stream after `n` rounds of the loop holds exactly `16 n` bytes |
| Payload.KeyStreamBlock | utils.py:12-15 | bytes `16i .. 16i+16` of the stream are the `(i+1)`-th chained digest, `MD5(D(i) ++ password ++ salt)` |
| Payload.KeyStreamPrefix | utils.py:11-15 | asking for more key material never changes the bytes already generated: the shorter stream is a prefix of the longer |
| Payload.BlocksFor | utils.py:11 | the loop runs the least number of rounds whose output covers `key_len + iv_len`: `length <= 16 n < length + 16` |
| Payload.DeriveKey | utils.py:16-17 | the key has `key_len` bytes, the IV has `iv_len` bytes, and together they are the front of the digest stream |
| Payload.DeriveKeyFromLongerStream | utils.py:16-17 | any stream long enough has the same key and IV at its front |
| Payload.KeyIgnoresIvLength | utils.py:16 | the key does not depend on the IV length requested |
| Payload.AesKeyIvShape | utils.py:29 | with lengths 32 and 16 the key is `D1 ++ D2` and the IV is `D3` |
| Payload.EvpBytesToKey | utils.py:5-18 | the MD5 loop returns a key and IV of the requested lengths, equal to `DeriveKey` |
| Payload.SplitPayload | utils.py:27-28 | salt plus ciphertext is everything after the 8-byte marker; the salt is short only when the payload is, and a non-empty ciphertext comes after a full 8-byte salt |
| Payload.StripPadding | utils.py:33-37 | fails exactly on an empty plaintext (`decrypted[-1]`); a last byte `n` in 1..16 drops `n` bytes (all of them if `n` is longer than the plaintext); any other last byte keeps the plaintext; the result is always a prefix |
| Payload.Pad | utils.py:32 | PKCS#7 padding adds 1..16 bytes up to a whole number of blocks and keeps the message as a prefix |
| Payload.StripPaddingUndoesPad | utils.py:32-37 | stripping undoes PKCS#7 padding for every message |
| Payload.StripPaddingIsLenient | utils.py:33-37 | a pad whose bytes do not match its length is still removed: `[0x41, 7, 2]` becomes `[0x41]` |
| Payload.DecryptBatoto | utils.py:20-37 | the base64 error is reported exactly when decoding fails, the missing-marker error exactly when decoding succeeds without `Salted__`, and the block-alignment error exactly when a marked payload has more than 16 bytes and its ciphertext is not whole blocks |
| Payload.HeaderCheckedFirst | utils.py:24-26 | without the `Salted__` marker the call fails with that error before any key is derived, whatever the primitives do |
| Payload.DecryptWellFramed | utils.py:20-37 | for a well-framed payload, the result is the UTF-8 text of the padding-stripped AES-CBC decryption under the key and IV derived from the password and bytes 8..16 |
| Payload.DecryptRoundTrip | utils.py:29-37 | if the cipher returns the padded message, the call returns the message's text |
| Payload.ShortPayloadFails | utils.py:27-33 | a marked payload of at most 16 bytes has no ciphertext and fails at `decrypted[-1]` |
| Pages.Abs | src/batoto_parser/parser.py:23-26 | a path starting with `http` is returned unchanged; any other path is joined onto `https://` + domain |
| Pages.AbsIdempotent | bato_parser.py:21-24 | resolving an already resolved URL changes nothing |
| Pages.SpaceRun | src/batoto_parser/parser.py:266 | `\s*` at an index consumes the maximal run of whitespace there |
| Pages.BracketedAt | src/batoto_parser/parser.py:266 | `\[[^\]]*\]` at an index is the text of the input there from the `[` to the first `]` after it; it fails exactly when the index holds no `[` or no `]` follows |
| Pages.SpaceRunWhole | src/batoto_parser/parser.py:266 | a run of whitespace followed by a character that is not whitespace is exactly the run `\s*` consumes |
| Pages.ImgHttpsArrayAt | src/batoto_parser/parser.py:266 | a match starts with `const` and a whitespace character, and its group is a bracketed literal |
| Pages.ImgHttpsGroupStart | src/batoto_parser/parser.py:266 | the start of group 1 lies within the text, and exists only after `const` and a whitespace character |
| Pages.ImgHttpsRunsWhole | src/batoto_parser/parser.py:266 | in any split of a match into `const`, whitespace, `imgHttps`, whitespace, `=`, whitespace and `[`, each whitespace run is the whole run there, because `i`, `=` and `[` are not whitespace; so a match splits in one way only |
| Pages.ImgHttpsArrayAtMatches | src/batoto_parser/parser.py:266 | for any runs `w1 >= 1`, `w2`, `w3` of whitespace with `const`, `imgHttps`, `=` around them and a bracketed literal after the last, group 1 is that literal |
| Pages.ImgHttpsArrayAtSplits | src/batoto_parser/parser.py:266 | conversely, every match comes from such runs, and group 1 is the bracketed literal after them |
| Pages.AssignmentAt | src/batoto_parser/parser.py:271-272 | a `batoPass` or `batoWord` value starts with the name, is non-empty and contains no `;` |
| Pages.AssignmentAtMatches | src/batoto_parser/parser.py:271-272 | the pattern matches after its name exactly when the whitespace run is followed by `=` and at least one character lies between it and the first `;` after it |
| Pages.AssignmentAtValue | src/batoto_parser/parser.py:271-272 | the value is the text right before the first `;` after the `=`, with only whitespace in front of it, and starts with a non-whitespace character unless it is a single character |
| Pages.ValueBefore | src/batoto_parser/parser.py:271-272 | `\s*([^;]+)` before a `;` captures the text before it without the leading whitespace, or the last whitespace character when there is nothing else |
| Pages.LeftmostMatch | bato_parser.py:198 | returns the first start index at which the pattern matches; no earlier index matches, and `None` means no index matches |
| Pages.Search | src/batoto_parser/parser.py:266-273 | `re.search` finds nothing exactly when the pattern matches at no index |
| Pages.SearchIsLeftmost | bato_parser.py:203-204 | the group reported is the one of the leftmost match |
| Pages.WhitespaceOnlyAssignment | src/batoto_parser/parser.py:271-275 | `x = ;` still matches, with value `" "`, because `\s*` gives back a character to `[^;]+` |
| Pages.Recombine | src/batoto_parser/parser.py:284-286 | fails exactly when there are query strings but fewer than images (`args[i]` raises); otherwise URL `i` is image `i`, with `?` and query string `i` appended when there are query strings |
| Pages.RecombineIsPositional | bato_parser.py:217-219 | each URL starts with its own image URL, in the images' order, and equals it plus `?` plus query string `i` when there are query strings |
| Pages.RecombineIgnoresExtraArgs | src/batoto_parser/parser.py:285-286 | query strings past the last image are never read |
| Pages.RecombineExample | bato_parser.py:218 | `["a","b","c"]` with `["x=1","","y=2"]` gives `a?x=1`, `b?`, `c?y=2` |
| Pages.PagesFor | src/batoto_parser/parser.py:287 | one page per URL, in order, each with the SHA-1 of its URL as id and no preview |
| Pages.Unlock | src/batoto_parser/parser.py:278-288 | no password means `PasswordUnavailable` before any decryption; a failed decryption is `DecryptFailed` with its cause, as the root `utils.py` reports it; decrypted text that does not parse is `InvalidJson`; otherwise it fails exactly when there are query strings but fewer than images, and page `i` has URL `PageUrl(images[i], args, i)` (image `i`, `?`, query string `i` when there are query strings) and that URL's hash as id |
| Pages.Examine | src/batoto_parser/parser.py:262-270 | a script without the marker or without the array literal is skipped; an array literal that is not valid JSON stops the walk with an error, even if the assignments are missing |
| Pages.MissingAssignmentSkips | src/batoto_parser/parser.py:271-274 | a script whose array literal parses but which lacks either assignment is skipped |
| Pages.ExamineUnlocks | src/batoto_parser/parser.py:266-282 | a qualifying script decides with `Unlock` of `json.loads` of its literal, its `batoPass` value stripped, and its `batoWord` value stripped of whitespace and then of quotes |
| Pages.ExamineFinishes | src/batoto_parser/parser.py:264-282 | a script decides exactly when it qualifies or its array literal is found but is not valid JSON |
| Pages.ScriptDecidesSuccess | src/batoto_parser/parser.py:264-288 | a script that decides with success qualifies, and its outcome is its unlocked literals |
| Pages.ResolveSkipsPrefix | bato_parser.py:194-206 | skipped scripts at the front do not affect the outcome |
| Pages.FirstDecisiveScriptDecides | src/batoto_parser/parser.py:262-288 | the first script that does not skip determines the result |
| Pages.LaterScriptsIgnored | bato_parser.py:220 | scripts after a decisive one are never consulted |
| Pages.NoDecisiveScriptFails | bato_parser.py:221 | when every script is skipped, the result is "Cannot find images list" |
| Pages.ResolveFromScript | src/batoto_parser/parser.py:262-289 | the loop's outcome is "Cannot find images list", or the decision of the first script that does not skip |
| Pages.ResolveSuccessIsPositional | bato_parser.py:194-220 | every success is the outcome of unlocking the literals of the first script that does not skip, and that script qualifies |
| Pages.BuildPages | src/batoto_parser/parser.py:284-288 | the page-building loop returns exactly `PagesFor(Recombine(images, args))`, or the `IndexError` |
| Pages.ExamineScript | bato_parser.py:195-220 | one loop iteration returns exactly `Examine`'s decision: skip, or the outcome |
| Pages.GetPages | src/batoto_parser/parser.py:257-289 | the method returns `Resolve` of the scripts fetched from `Abs(chapter_url)` |
| Text.StripCharsIdempotent | src/batoto_parser/validators.py:149 | stripping twice is the same as stripping once |
| Text.Strip | src/batoto_parser/validators.py:149 | `strip()` is never longer than its input and leaves no whitespace at either end |
| Text.StripCharsKeeps | src/batoto_parser/validators.py:195 | stripping only cuts: any property every input character has, every result character has |
| Text.StripChars | src/batoto_parser/parser.py:275-276 | `strip(chars)` returns a string that neither starts nor ends with a stripped character |
| Text.StripCharsIsInfix | bato_parser.py:207-208 | the stripped string sits inside the input, and everything cut away on either side is made of stripped characters |
| Text.Lower | src/batoto_parser/validators.py:195 | `lower()` keeps the length and lowers each character on its own |
| Text.LowerHasNoUpper | src/batoto_parser/validators.py:195 | no upper-case ASCII letter is left after `lower()` |
| Text.FindFirst | src/batoto_parser/validators.py:244 | the first index at or after a start holding one of the characters; `None` means there is none |
| Text.Contains | src/batoto_parser/parser.py:264 | `pat in s` holds exactly when `pat` occurs at some index of `s` |
| Text.RemoveAllSkips | src/batoto_parser/validators.py:196 | `replace(pat, "")` keeps a prefix that holds no first character of `pat` and goes on after it |
| Text.RemoveAllLeading | src/batoto_parser/validators.py:262 | `replace(pat, "")` deletes an occurrence at the front whole |
| Text.RemoveAll | src/batoto_parser/validators.py:196 | `replace(pat, "")` never lengthens, and shortens by at least `pat` when the string starts with it, and keeps the first character when it does not |
| Text.RemoveAllKeeps | src/batoto_parser/validators.py:196 | `replace(pat, "")` only deletes: any property every input character has, every result character has |
| Validators.RemoveChars | src/batoto_parser/validators.py:244 | the characters `urlsplit` deletes (tab, CR, LF) are gone from the result; a single character is kept exactly when it is not one of them |
| Validators.RemoveCharsAppend | src/batoto_parser/validators.py:244 | deletion works piece by piece, so the kept characters stay in their order: the result for `a + b` is the result for `a` followed by the result for `b` |
| Validators.ValidatePageNumber | src/batoto_parser/validators.py:66-76 | accepts exactly 1..10000 and returns the page; below 1 and above 10000 give their own errors |
| Validators.ValidateSortOrder | src/batoto_parser/validators.py:105-115 | accepts exactly the eight known orders and returns the order unchanged; empty input gives its own error |
| Validators.ValidateSearchQuery | src/batoto_parser/validators.py:140-160 | `None` passes; otherwise accepts exactly when the stripped query has 1..200 characters and returns it stripped; empty and too-long queries give their errors |
| Validators.ValidateSearchQueryIdempotent | src/batoto_parser/validators.py:149-160 | an accepted query has no whitespace at either end and is accepted again unchanged |
| Validators.ValidateDomain | src/batoto_parser/validators.py:191-205 | the emptiness check looks at the raw input; accepts exactly when the lowered, stripped domain with every `www.` removed is allowed, and returns that form |
| Validators.NormalizeDomain | src/batoto_parser/validators.py:195-196 | the normalised domain is no longer than the input and holds no upper-case ASCII letter |
| Validators.WhitespaceDomainNotAllowed | src/batoto_parser/validators.py:191-198 | a whitespace-only domain passes the emptiness check and is reported as domain `""` not allowed |
| Validators.AllowedDomainIsNormal | src/batoto_parser/validators.py:25 | the allowed domains are their own normal form |
| Validators.ValidateDomainIdempotent | src/batoto_parser/validators.py:194-205 | an accepted domain is accepted again, unchanged |
| Validators.SplitScheme | src/batoto_parser/validators.py:244 | a recognised scheme ends at the first `:`, which has a non-empty run of scheme characters starting with a letter before it; the scheme is that run lowered, and the rest follows the `:`; when no index ends a scheme, the scheme is empty and the URL is kept whole |
| Validators.CleanUrl | src/batoto_parser/validators.py:244 | what `urlsplit` works on never starts with a C0 control or space and holds no tab, CR or LF |
| Validators.NetlocAfter | src/batoto_parser/validators.py:244 | the network location is the text right after `//` up to the first `/`, `?` or `#`, or to the end |
| Validators.UrlParse | src/batoto_parser/validators.py:244 | `ValueError` exactly on a network location with unbalanced brackets; the scheme is lower-case scheme characters; the network location holds no `/`, `?` or `#`, is the text after `//` up to the first of them, and is empty when there is no `//` |
| Validators.EmptyUrlParse | src/batoto_parser/validators.py:244-251 | the empty URL has neither scheme nor network location |
| Validators.CanonicalHost | src/batoto_parser/validators.py:261-262 | the looked-up host is no longer than the network location and has no upper-case ASCII letter; under the corrected rule it is the lowered network location, or that without a leading `www.` exactly when it has one |
| Validators.CheckParts | src/batoto_parser/validators.py:246-271 | accepts exactly when a scheme and a network location exist, the scheme is http or https and the host is allowed; a parse failure or a missing scheme or network location is a format error; an unsupported scheme is reported before the domain; an unknown host is reported as the reduced host |
| Validators.ValidateUrlBy | src/batoto_parser/validators.py:238-271 | under a given host rule: an empty URL is its own error; accepts exactly when the stripped URL passes the checks; returns the stripped URL |
| Validators.ValidateUrlAsWritten | src/batoto_parser/validators.py:238-271 | an empty URL is its own error; accepts exactly when the stripped URL passes the checks with every `www.` removed from the host; returns the stripped URL |
| Validators.ValidateUrlChecksStripped | src/batoto_parser/validators.py:241-244 | a non-empty URL is checked on its stripped form |
| Validators.ValidateUrlCorrected | src/batoto_parser/validators.py:260-264 | the corrected check: every accepted URL's host is an allowed domain or its `www.` host |
| Validators.StripLeadingWwwWithin | src/batoto_parser/validators.py:261-264 | a host that passes the corrected host check is an allowed domain or its `www.` host |
| Validators.StripLeadingWwwAcceptsWithin | src/batoto_parser/validators.py:260-264 | conversely, an allowed domain or its `www.` host passes the corrected host check |
| Validators.CorrectedUrlCheckIsNarrower | src/batoto_parser/validators.py:261-264 | any URL the corrected check accepts is also accepted as written, with the same result |
| Validators.HostRulesAgreeWithin | src/batoto_parser/validators.py:261-262 | on an allowed domain and its `www.` host, the two host rules agree |
| Validators.ValidateUrlIdempotent | src/batoto_parser/validators.py:241-271 | under either host rule, an accepted URL is accepted again, unchanged |
| Validators.InnerWwwHost | src/batoto_parser/validators.py:261-262 | as written, `p + "www." + q` is looked up as `p + q`; corrected, it is looked up unchanged |
| Validators.InnerWwwAcceptedAsWritten | src/batoto_parser/validators.py:261-264 | a URL whose host is an allowed domain with `www.` inserted after a non-empty start is accepted as written, though its host is not within the allowed domains; the corrected check refuses it |
| Validators.InnerWwwUnderRule | src/batoto_parser/validators.py:261-264 | such a URL is accepted under the rule as written and refused under the corrected rule, with its host reported |
| Validators.InnerWwwParts | src/batoto_parser/validators.py:246-269 | the same, on the parsed URL: accepted as written, `DomainNotAllowed` of the host when corrected |
| Validators.InnerWwwNotWithin | src/batoto_parser/validators.py:25 | such a host is neither an allowed domain nor its `www.` host |
| Validators.InnerWwwExample | src/batoto_parser/validators.py:244-264 | `https://bato.www.to/chapter/1` parses to host `bato.` + `www.` + `to`, where `bato.to` is allowed |
| Validators.ValidateChapterUrl | src/batoto_parser/validators.py:296-305 | under either host rule, accepts exactly the valid URLs whose lowered form contains `/chapter/`, and returns the stripped URL; a URL error passes through unchanged; a valid URL without `/chapter/` is `NotAChapterUrl` of the raw URL |
| Validators.ValidateMangaUrl | src/batoto_parser/validators.py:325-334 | under either host rule, accepts exactly the valid URLs whose lowered form contains `/series/` or `/title/`, and returns the stripped URL; a URL error passes through unchanged; a valid URL with neither is `NotAMangaUrl` of the raw URL |
| Validators.InnerWwwChapterUrl | src/batoto_parser/validators.py:296-305 | the finding reaches `validate_chapter_url`: a chapter URL on such a host is accepted as written and refused when corrected |

## Left out

- Fetching the page and extracting `<script>` texts (`http_get`, BeautifulSoup) are one function, `fetchScripts`. HTTP errors are not modelled.
- MD5, AES-CBC, UTF-8, base64, `json.loads`, SHA-1 (`generate_uid`), `urljoin` and the JavaScript evaluator are uninterpreted functions. They are foreign code, and their correctness is not what the package contributes.
- Pages.Examine: `json.loads` of the image literal is modelled only for arrays of strings. Valid JSON of any other kind ends the walk with `InvalidJson` in the model, where Python skips the script or fails somewhere else. When `batoPass` or `batoWord` is missing, Python takes the `continue` (src/batoto_parser/parser.py:273-274), so a later script can still give pages. Otherwise it can fail at the `None` password, in `decrypt_batoto` or in `json.loads` of the query strings (src/batoto_parser/parser.py:278-282), and past those at `img + "?" + args[i]` or in `generate_uid`.
- Pages.Unlock: `json.loads` of the decrypted text is modelled only for arrays of strings, and anything else is `InvalidJson`. Python differs on JSON that parses to something else. A falsy value (`null`, `0`, `false`, `{}`, `""`) passes `if not args`, so Python returns the bare image URLs. A non-empty JSON string is indexed character by character, so each image gets one character of it. Other values raise at `args[i]`.
- `get_list`, `get_details`, date parsing, the CLI, `models.py` and the configuration are outside the modelled core.
- `src/batoto_parser/utils.py`, which `src/batoto_parser/parser.py` imports, is not part of this model; the root `utils.py`, which has functions of the same names, is modelled in its place. The package's tests (tests/test_utils.py:101-171) show checks the root file does not make: an empty password or salt, a salt that is not 8 bytes, non-positive key and IV lengths, argument types, empty input ("cannot be empty"), data "too short" after the marker, its own "Failed to decode base64" message, and a differently worded missing-marker message. So for the package's `get_pages`, `Pages.Unlock`'s `DecryptFailed` causes and the empty password going on to decryption describe the root `utils.py` only.
- The `isinstance` checks of the validators are enforced by Dafny's types and are not modelled as errors.
- `lower()` and `isalpha()` are modelled for ASCII letters only; other Unicode case mappings are not modelled.
- Validators.UrlParse: models `urlsplit`'s scheme and network-location rules (leading C0 and space stripping, removal of tab, CR and LF, the scheme grammar, `//` and the first `/`, `?` or `#`, and unbalanced brackets). The leading C0-and-space stripping is that of CPython 3.12 and of the security releases of earlier branches from 3.11.4 on; older versions do not strip and handle such URLs differently. It leaves out the validation of bracketed IPv6 hosts and the NFKC check on non-ASCII network locations.
- Payload.EvpBytesToKey: key and IV lengths are natural numbers. Python's behaviour for negative lengths, where slicing counts from the end, is not modelled.
- Payload.DecryptBatoto: AES rejecting a ciphertext that is not a whole number of blocks is modelled as an error. The cipher's other failure modes are not.
- `validate_domain` has the same inner-`www.` behaviour (`bato.www.to` becomes `bato.to`). It returns the normalised, allowed domain rather than the input, so nothing foreign passes through it. The model keeps that behaviour as written.

## Findings

| source | as written | input that shows it | evidently intended | confidence | as-written member | corrected member |
|---|---|---|---|---|---|---|
| src/batoto_parser/validators.py:261-264 | `netloc.lower().replace("www.", "")` removes every `www.` in the host before it is checked against the allowed domains | `https://bato.www.to/chapter/1`: host `bato.www.to` is reduced to `bato.to` and accepted, yet it is a host under `www.to` | only a leading `www.` is ignored, so an accepted URL's host is an allowed domain or its `www.` host | not executed | Validators.InnerWwwAcceptedAsWritten | Validators.ValidateUrlCorrected |
