/** Input validation for the parser's callers (`validators.py`): page numbers, sort orders,
    search queries, domains and URLs. Each validator either returns its (possibly normalised)
    argument or fails with a `ValidationError`; the checks run in the order the source makes
    them, so the error reported for an input is the source's error. */
module Validators {
  import opened Wrappers
  import opened Text

  const ValidSortOrders: set<string> := {
    "update.za", "update.az", "create.za", "create.az",
    "name.az", "name.za", "views.za", "views.az"
  }

  const AllowedDomains: seq<string> := ["bato.si", "bato.to"]

  const MaxQueryLength: nat := 200
  const MinPageNumber: int := 1
  const MaxPageNumber: int := 10000

  datatype ValidationError =
    | PageBelowMinimum(page: int)           // "must be at least 1"
    | PageAboveMaximum(page: int)           // "cannot exceed 10000"
    | SortOrderEmpty                        // "Sort order cannot be empty"
    | SortOrderUnknown(order: string)       // "Invalid sort order"
    | QueryEmpty                            // "Search query cannot be empty"
    | QueryTooLong(length: nat)             // "Search query too long"
    | DomainEmpty                           // "Domain cannot be empty"
    | DomainNotAllowed(domain: string)      // "Domain ... not allowed"
    | UrlEmpty                              // "URL cannot be empty"
    | UrlMalformed(url: string)             // "Invalid URL format"
    | UrlSchemeUnsupported(scheme: string)  // "Invalid URL scheme"
    | NotAChapterUrl(url: string)           // "must contain '/chapter/'"
    | NotAMangaUrl(url: string)             // "must contain '/series/' or '/title/'"

  // ----- page numbers and sort orders --------------------------------------------------------

  /** `validate_page_number`: the page comes back unchanged exactly when it lies in 1..10000. */
  function ValidatePageNumber(page: int): (r: Result<int, ValidationError>)
    ensures r.Success? <==> MinPageNumber <= page <= MaxPageNumber
    ensures r.Success? ==> r.value == page
    ensures page < MinPageNumber ==> r == Failure(PageBelowMinimum(page))
    ensures page > MaxPageNumber ==> r == Failure(PageAboveMaximum(page))
  {
    if page < MinPageNumber then Failure(PageBelowMinimum(page))
    else if page > MaxPageNumber then Failure(PageAboveMaximum(page))
    else Success(page)
  }

  /** `validate_sort_order`: the order comes back unchanged exactly when it is one of the eight
      known orders; the empty string is reported as empty rather than as unknown. */
  function ValidateSortOrder(order: string): (r: Result<string, ValidationError>)
    ensures r.Success? <==> order in ValidSortOrders
    ensures r.Success? ==> r.value == order
    ensures order == "" ==> r == Failure(SortOrderEmpty)
    ensures order != "" && order !in ValidSortOrders ==> r == Failure(SortOrderUnknown(order))
  {
    if order == "" then Failure(SortOrderEmpty)
    else if order !in ValidSortOrders then Failure(SortOrderUnknown(order))
    else Success(order)
  }

  // ----- search queries ----------------------------------------------------------------------

  /** `validate_search_query`: `None` passes through; a query is stripped of surrounding
      whitespace and must then hold between 1 and 200 characters. */
  function ValidateSearchQuery(query: Option<string>): (r: Result<Option<string>, ValidationError>)
    ensures query.None? ==> r == Success(None)
    ensures query.Some? ==> (r.Success? <==> 0 < |Strip(query.value)| <= MaxQueryLength)
    ensures query.Some? && r.Success? ==> r.value == Some(Strip(query.value))
    ensures query.Some? && Strip(query.value) == "" ==> r == Failure(QueryEmpty)
    ensures query.Some? && |Strip(query.value)| > MaxQueryLength ==> r == Failure(QueryTooLong(|Strip(query.value)|))
  {
    match query
    case None => Success(None)
    case Some(q) =>
      var stripped := Strip(q);
      if stripped == "" then Failure(QueryEmpty)
      else if |stripped| > MaxQueryLength then Failure(QueryTooLong(|stripped|))
      else Success(Some(stripped))
  }

  /** An accepted query has no whitespace at either end and is accepted again unchanged. */
  lemma ValidateSearchQueryIdempotent(query: Option<string>)
    requires ValidateSearchQuery(query).Success?
    ensures var r := ValidateSearchQuery(query).value;
            r.Some? ==> !IsSpace(r.value[0]) && !IsSpace(r.value[|r.value| - 1])
    ensures ValidateSearchQuery(ValidateSearchQuery(query).value) == ValidateSearchQuery(query)
  {
    if query.Some? {
      var stripped := Strip(query.value);
      IsSpaceIsWhitespace(stripped[0]);
      IsSpaceIsWhitespace(stripped[|stripped| - 1]);
      StripCharsIdempotent(query.value, Whitespace);
    }
  }

  // ----- domains -----------------------------------------------------------------------------

  /** `domain.lower().strip()` followed by `replace("www.", "")`: no upper-case ASCII letter
      survives, and nothing is added. */
  function NormalizeDomain(domain: string): (r: string)
    ensures |r| <= |domain|
    ensures forall i :: 0 <= i < |r| ==> !('A' <= r[i] <= 'Z')
  {
    var stripped := Strip(Lower(domain));
    var notUpper := c => !('A' <= c <= 'Z');
    LowerHasNoUpper(domain);
    StripCharsKeeps(Lower(domain), Whitespace, notUpper);
    RemoveAllKeeps(stripped, "www.", notUpper);
    RemoveAll(stripped, "www.")
  }

  /** `validate_domain`: the emptiness check looks at the raw argument; the normalised domain
      must then be one of the allowed domains, and it is what comes back. */
  function ValidateDomain(domain: string): (r: Result<string, ValidationError>)
    ensures domain == "" ==> r == Failure(DomainEmpty)
    ensures domain != "" ==> (r.Success? <==> NormalizeDomain(domain) in AllowedDomains)
    ensures r.Success? ==> r.value == NormalizeDomain(domain) && r.value in AllowedDomains
    ensures domain != "" && r.Failure? ==> r.error == DomainNotAllowed(NormalizeDomain(domain))
  {
    if domain == "" then Failure(DomainEmpty)
    else
      var normalized := NormalizeDomain(domain);
      if normalized !in AllowedDomains then Failure(DomainNotAllowed(normalized))
      else Success(normalized)
  }

  /** A domain of whitespace only is not empty to the check, so it is reported as the
      domain `""` not being allowed. */
  lemma WhitespaceDomainNotAllowed(domain: string)
    requires domain != "" && forall i :: 0 <= i < |domain| ==> IsSpace(domain[i])
    ensures ValidateDomain(domain) == Failure(DomainNotAllowed(""))
  {
    var lowered := Lower(domain);
    forall i | 0 <= i < |lowered| ensures lowered[i] in Whitespace {
      IsSpaceIsWhitespace(domain[i]);
      IsSpaceIsWhitespace(lowered[i]);
    }
    assert TrimStart(lowered, Whitespace) == [];
  }

  /** Characters a domain may hold that no step of the normalisation touches: lower-case
      ASCII letters other than `w`, digits, `-` and `.`. */
  predicate IsInertHostChar(c: char) {
    ('a' <= c <= 'z' && c != 'w') || ('0' <= c <= '9') || c == '-' || c == '.'
  }

  /** Inert characters are not whitespace, so stripping keeps such a domain. */
  lemma InertStrip(d: string)
    requires forall i :: 0 <= i < |d| ==> IsInertHostChar(d[i])
    ensures Strip(d) == d
  {
    assert d == [] || (d[0] !in Whitespace && d[|d| - 1] !in Whitespace);
    StripCharsNoop(d, Whitespace);
  }

  /** Without a `w`, there is no `www.` to remove. */
  lemma InertRemove(d: string)
    requires forall i :: 0 <= i < |d| ==> IsInertHostChar(d[i])
    ensures RemoveAll(d, "www.") == d
  {
    var pat := "www.";
    assert pat[0] == 'w';
    assert forall i :: 0 <= i < |d| ==> d[i] != pat[0] by {
      forall i | 0 <= i < |d| ensures d[i] != 'w' {
        assert IsInertHostChar(d[i]);
      }
    }
    RemoveAllSkips(d, [], pat);
    assert d + [] == d;
  }

  /** A domain made of inert characters is its own normal form. */
  lemma InertDomainIsNormal(d: string)
    requires forall i :: 0 <= i < |d| ==> IsInertHostChar(d[i])
    ensures NormalizeDomain(d) == d
  {
    LowerNoop(d);
    InertStrip(d);
    InertRemove(d);
  }

  /** The allowed domains are in normal form. */
  lemma AllowedDomainIsNormal(d: string)
    requires d in AllowedDomains
    ensures NormalizeDomain(d) == d
  {
    AllowedDomainIsInert(d);
    InertDomainIsNormal(d);
  }

  /** The allowed domains are made of inert characters. */
  lemma AllowedDomainIsInert(d: string)
    requires d in AllowedDomains
    ensures forall i :: 0 <= i < |d| ==> IsInertHostChar(d[i])
  {
  }

  /** What `validate_domain` accepts it accepts again, unchanged. */
  lemma ValidateDomainIdempotent(domain: string)
    requires ValidateDomain(domain).Success?
    ensures ValidateDomain(ValidateDomain(domain).value) == ValidateDomain(domain)
  {
    AllowedDomainIsNormal(ValidateDomain(domain).value);
  }

  // ----- URLs --------------------------------------------------------------------------------

  /** The scheme and network location `urlparse` reports. */
  datatype UrlParts = UrlParts(scheme: string, netloc: string)

  /** What `urlsplit` strips from the front of a URL: C0 controls and the space. */
  const C0ControlOrSpace: set<char> := set code | 0 <= code <= 0x20 :: code as char

  /** What `urlsplit` deletes everywhere in a URL. */
  const UnsafeUrlChars: set<char> := {'\t', '\r', '\n'}

  /** The characters that end a network location. */
  const NetlocDelimiters: set<char> := {'/', '?', '#'}

  predicate IsAsciiLetter(c: char) {
    'a' <= c <= 'z' || 'A' <= c <= 'Z'
  }

  predicate IsSchemeChar(c: char) {
    IsAsciiLetter(c) || '0' <= c <= '9' || c == '+' || c == '-' || c == '.'
  }

  /** Delete every character of `cs`, keeping the others in order. */
  function RemoveChars(s: string, cs: set<char>): (r: string)
    ensures |r| <= |s|
    ensures forall i :: 0 <= i < |r| ==> r[i] !in cs
    ensures |s| == 1 ==> r == if s[0] in cs then [] else s
  {
    if s == [] then [] else (if s[0] in cs then [] else [s[0]]) + RemoveChars(s[1..], cs)
  }

  /** Deleting characters works piece by piece: the kept characters of `a + b` are those of
      `a` followed by those of `b`. */
  lemma {:induction false} RemoveCharsAppend(a: string, b: string, cs: set<char>)
    ensures RemoveChars(a + b, cs) == RemoveChars(a, cs) + RemoveChars(b, cs)
  {
    if a == [] {
      assert a + b == b;
    } else {
      assert (a + b)[1..] == a[1..] + b;
      RemoveCharsAppend(a[1..], b, cs);
    }
  }

  /** Index `i` holds a `:` that ends a scheme: the text before it is non-empty, starts with an
      ASCII letter and uses scheme characters only. Such a `:` is the first one of the URL,
      since `:` is not a scheme character. */
  predicate SchemeEndsAt(url: string, i: nat) {
    0 < i < |url| && url[i] == ':' && IsAsciiLetter(url[0])
    && forall k :: 0 <= k < i ==> IsSchemeChar(url[k])
  }

  /** The scheme of a URL and what follows its `:`. A scheme is only recognised when the text
      before the first `:` is non-empty, starts with an ASCII letter and uses scheme characters
      only; it is reported in lower case. Otherwise the scheme is empty and the URL is kept. */
  function SplitScheme(url: string): (r: (string, string))
    ensures r.0 != "" ==> SchemeEndsAt(url, |r.0|) && r.0 == Lower(url[..|r.0|]) && r.1 == url[|r.0| + 1..]
    ensures r.0 != "" ==> forall k :: 0 <= k < |r.0| ==> url[k] != ':'
    ensures r.0 == "" ==> r.1 == url && forall i: nat :: !SchemeEndsAt(url, i)
    ensures forall k :: 0 <= k < |r.0| ==> IsSchemeChar(r.0[k]) && !('A' <= r.0[k] <= 'Z')
  {
    match FindFirst(url, {':'}, 0)
    case Some(i) =>
      if i > 0 && IsAsciiLetter(url[0]) && forall k :: 0 <= k < i ==> IsSchemeChar(url[k])
      then (Lower(url[..i]), url[i + 1..])
      else ("", url)
    case None => ("", url)
  }

  /** `urlparse(url)` as far as scheme and network location go (the generic syntax of section 3
      of RFC 3986, with CPython's `urlsplit` rules). The network location follows `//` and runs
      to the first `/`, `?` or `#`; one with a `[` but no `]`, or the reverse, raises `ValueError`,
      given here as `None`. */
  function UrlParse(url: string): (r: Option<UrlParts>)
    ensures var rest := SplitScheme(CleanUrl(url)).1;
            r.None? <==> StartsWith(rest, "//") && ('[' in NetlocAfter(rest)) != (']' in NetlocAfter(rest))
    ensures r.Some? ==> r.value.scheme == SplitScheme(CleanUrl(url)).0
    ensures r.Some? ==> forall k :: 0 <= k < |r.value.scheme| ==> IsSchemeChar(r.value.scheme[k]) && !('A' <= r.value.scheme[k] <= 'Z')
    ensures r.Some? ==> forall k :: 0 <= k < |r.value.netloc| ==> r.value.netloc[k] !in NetlocDelimiters
    ensures r.Some? ==> ('[' in r.value.netloc) == (']' in r.value.netloc)
    ensures var rest := SplitScheme(CleanUrl(url)).1;
            r.Some? ==> r.value.netloc == if StartsWith(rest, "//") then NetlocAfter(rest) else ""
  {
    var (scheme, rest) := SplitScheme(CleanUrl(url));
    if !StartsWith(rest, "//") then Some(UrlParts(scheme, ""))
    else
      var netloc := NetlocAfter(rest);
      if ('[' in netloc) != (']' in netloc) then None
      else Some(UrlParts(scheme, netloc))
  }

  /** What `urlsplit` works on: the URL without leading C0 controls and spaces, and with every
      tab, CR and LF deleted. */
  function CleanUrl(url: string): (r: string)
    ensures |r| <= |url|
    ensures forall i :: 0 <= i < |r| ==> r[i] !in UnsafeUrlChars
    ensures r == [] || r[0] !in C0ControlOrSpace
  {
    var trimmed := TrimStart(url, C0ControlOrSpace);
    CleanStartsClean(trimmed);
    RemoveChars(trimmed, UnsafeUrlChars)
  }

  /** Tab, CR and LF are C0 controls, so deleting them from a string that does not start with a
      C0 control or space leaves one that does not either. */
  lemma {:induction false} CleanStartsClean(s: string)
    requires s == [] || s[0] !in C0ControlOrSpace
    ensures var r := RemoveChars(s, UnsafeUrlChars); r == [] || r[0] !in C0ControlOrSpace
  {
    if s != [] {
      assert s[0] !in UnsafeUrlChars by {
        assert '\t' as int == 9 && '\r' as int == 13 && '\n' as int == 10;
        assert '\t' in C0ControlOrSpace && '\r' in C0ControlOrSpace && '\n' in C0ControlOrSpace;
      }
    }
  }

  /** The network location after a leading `//`: the text from index 2 up to the first `/`, `?`
      or `#`, or to the end when there is none. */
  function NetlocAfter(rest: string): (n: string)
    requires StartsWith(rest, "//")
    ensures OccursAt(rest, n, 2)
    ensures forall k :: 0 <= k < |n| ==> n[k] !in NetlocDelimiters
    ensures 2 + |n| == |rest| || rest[2 + |n|] in NetlocDelimiters
  {
    match FindFirst(rest, NetlocDelimiters, 2)
    case Some(k) => rest[2..k]
    case None => rest[2..]
  }

  /** How the host of a URL is reduced before it is looked up among the allowed domains. */
  datatype HostRule =
    | RemoveEveryWww   // `netloc.lower().replace("www.", "")`, as the source does
    | StripLeadingWww  // the lowered network location without one leading `www.`

  /** The host a network location is looked up as: lowered, with no upper-case ASCII letter
      left and nothing added. Under the corrected rule it is the lowered network location
      itself, or that without a leading `www.` when it has one. */
  function CanonicalHost(netloc: string, rule: HostRule): (r: string)
    ensures |r| <= |netloc|
    ensures forall i :: 0 <= i < |r| ==> !('A' <= r[i] <= 'Z')
    ensures rule == StripLeadingWww ==> (Lower(netloc) == r || Lower(netloc) == "www." + r)
    ensures rule == StripLeadingWww ==> (r == Lower(netloc) <==> !StartsWith(Lower(netloc), "www."))
  {
    var lowered := Lower(netloc);
    match rule
    case RemoveEveryWww =>
      RemoveAllKeeps(lowered, "www.", c => !('A' <= c <= 'Z'));
      RemoveAll(lowered, "www.")
    case StripLeadingWww =>
      if StartsWith(lowered, "www.") then
        assert lowered == "www." + lowered[4..];
        lowered[4..]
      else lowered
  }

  /** The network location names an allowed domain, or the `www.` host of one. */
  predicate HostWithin(netloc: string, allowed: seq<string>) {
    exists d :: d in allowed && (Lower(netloc) == d || Lower(netloc) == "www." + d)
  }

  /** The checks of `validate_url` after the emptiness test, on what `urlparse` made of the
      stripped URL. */
  predicate PartsPass(parsed: Option<UrlParts>, allowed: seq<string>, rule: HostRule) {
    match parsed
    case None => false
    case Some(parts) =>
      parts.scheme != "" && parts.netloc != ""
      && parts.scheme in {"http", "https"}
      && CanonicalHost(parts.netloc, rule) in allowed
  }

  /** The error `validate_url` reports for a non-empty URL: format before scheme, scheme before
      domain. */
  function CheckParts(stripped: string, parsed: Option<UrlParts>, allowed: seq<string>, rule: HostRule)
    : (r: Result<string, ValidationError>)
    ensures r.Success? <==> PartsPass(parsed, allowed, rule)
    ensures r.Success? ==> r.value == stripped
    ensures parsed.None? ==> r == Failure(UrlMalformed(stripped))
    ensures parsed.Some? && (parsed.value.scheme == "" || parsed.value.netloc == "")
            ==> r == Failure(UrlMalformed(stripped))
    ensures (parsed.Some? && parsed.value.scheme != "" && parsed.value.netloc != ""
             && parsed.value.scheme !in {"http", "https"})
            ==> r == Failure(UrlSchemeUnsupported(parsed.value.scheme))
    ensures (parsed.Some? && parsed.value.netloc != "" && parsed.value.scheme in {"http", "https"}
             && CanonicalHost(parsed.value.netloc, rule) !in allowed)
            ==> r == Failure(DomainNotAllowed(CanonicalHost(parsed.value.netloc, rule)))
  {
    match parsed
    case None => Failure(UrlMalformed(stripped))
    case Some(parts) =>
      if parts.scheme == "" || parts.netloc == "" then Failure(UrlMalformed(stripped))
      else if parts.scheme != "http" && parts.scheme != "https" then Failure(UrlSchemeUnsupported(parts.scheme))
      else
        var host := CanonicalHost(parts.netloc, rule);
        if host !in allowed then Failure(DomainNotAllowed(host))
        else Success(stripped)
  }

  /** `validate_url(url, allowed_domains)` with the host reduced by `rule`: the raw URL must be
      non-empty; the stripped URL must then have a scheme and a network location, the scheme
      must be http or https, and the reduced host must be an allowed domain. On success the
      stripped URL itself comes back, not a normalised form. */
  function ValidateUrlBy(url: string, allowed: seq<string>, rule: HostRule): (r: Result<string, ValidationError>)
    ensures url == "" ==> r == Failure(UrlEmpty)
    ensures r.Success? <==> url != "" && PartsPass(UrlParse(Strip(url)), allowed, rule)
    ensures r.Success? ==> r.value == Strip(url)
  {
    if url == "" then Failure(UrlEmpty)
    else
      var stripped := Strip(url);
      CheckParts(stripped, UrlParse(stripped), allowed, rule)
  }

  /** `validate_url` as written: every `www.` in the lowered network location is removed before
      the lookup. */
  function ValidateUrlAsWritten(url: string, allowed: seq<string>): (r: Result<string, ValidationError>)
    ensures url == "" ==> r == Failure(UrlEmpty)
    ensures r.Success? <==> url != "" && PartsPass(UrlParse(Strip(url)), allowed, RemoveEveryWww)
    ensures r.Success? ==> r.value == Strip(url)
  {
    ValidateUrlBy(url, allowed, RemoveEveryWww)
  }

  /** `validate_url` with the host check it evidently means: only a leading `www.` is ignored,
      so every accepted URL points at an allowed domain or at its `www.` host. */
  function ValidateUrlCorrected(url: string, allowed: seq<string>): (r: Result<string, ValidationError>)
    ensures url == "" ==> r == Failure(UrlEmpty)
    ensures r.Success? <==> url != "" && PartsPass(UrlParse(Strip(url)), allowed, StripLeadingWww)
    ensures r.Success? ==> r.value == Strip(url)
    ensures r.Success? ==> HostWithin(UrlParse(Strip(url)).value.netloc, allowed)
  {
    var r := ValidateUrlBy(url, allowed, StripLeadingWww);
    if r.Success? then
      StripLeadingWwwWithin(UrlParse(Strip(url)).value.netloc, allowed);
      r
    else r
  }

  /** A host that passes the corrected host check is an allowed domain or its `www.` host. */
  lemma StripLeadingWwwWithin(netloc: string, allowed: seq<string>)
    requires CanonicalHost(netloc, StripLeadingWww) in allowed
    ensures HostWithin(netloc, allowed)
  {
    var lowered := Lower(netloc);
    var d := CanonicalHost(netloc, StripLeadingWww);
    if StartsWith(lowered, "www.") {
      assert lowered == "www." + d;
    } else {
      assert lowered == d;
    }
  }

  /** Conversely, an allowed domain or its `www.` host is accepted by the host check, as long
      as the domain does not itself start with `www.`. */
  lemma StripLeadingWwwAcceptsWithin(netloc: string, allowed: seq<string>)
    requires HostWithin(netloc, allowed)
    requires forall d :: d in allowed ==> !StartsWith(d, "www.")
    ensures CanonicalHost(netloc, StripLeadingWww) in allowed
  {
    var d :| d in allowed && (Lower(netloc) == d || Lower(netloc) == "www." + d);
    if Lower(netloc) == "www." + d {
      assert StartsWith(Lower(netloc), "www.");
      assert Lower(netloc)[4..] == d;
    }
  }

  /** The correction only narrows what is accepted: a URL the corrected check accepts, the
      check as written accepts too. */
  lemma CorrectedUrlCheckIsNarrower(url: string)
    requires ValidateUrlCorrected(url, AllowedDomains).Success?
    ensures ValidateUrlAsWritten(url, AllowedDomains) == ValidateUrlCorrected(url, AllowedDomains)
  {
    var netloc := UrlParse(Strip(url)).value.netloc;
    HostRulesAgreeWithin(netloc);
    ValidateUrlChecksStripped(url, AllowedDomains, RemoveEveryWww);
    ValidateUrlChecksStripped(url, AllowedDomains, StripLeadingWww);
  }

  /** On an allowed domain and on its `www.` host the two host rules agree. */
  lemma HostRulesAgreeWithin(netloc: string)
    requires HostWithin(netloc, AllowedDomains)
    ensures CanonicalHost(netloc, RemoveEveryWww) == CanonicalHost(netloc, StripLeadingWww)
  {
    var lowered := Lower(netloc);
    var d :| d in AllowedDomains && (lowered == d || lowered == "www." + d);
    AllowedDomainIsInert(d);
    InertRemove(d);
    if lowered == "www." + d {
      RemoveAllLeading("www.", d);
      assert lowered[..4] == "www." && lowered[4..] == d;
    } else {
      assert lowered[0] == d[0] != 'w';
    }
  }

  /** A URL `validate_url` accepts is accepted again, unchanged, under either host rule. */
  lemma ValidateUrlIdempotent(url: string, allowed: seq<string>, rule: HostRule)
    requires ValidateUrlBy(url, allowed, rule).Success?
    ensures ValidateUrlBy(ValidateUrlBy(url, allowed, rule).value, allowed, rule) == ValidateUrlBy(url, allowed, rule)
  {
    var s := Strip(url);
    StripCharsIdempotent(url, Whitespace);
    assert Strip(s) == s;
    if s == "" {
      EmptyUrlParse();
    }
    ValidateUrlChecksStripped(url, allowed, rule);
    ValidateUrlChecksStripped(s, allowed, rule);
  }

  /** The empty URL has neither a scheme nor a network location. */
  lemma EmptyUrlParse()
    ensures UrlParse("") == Some(UrlParts("", ""))
  {
    assert CleanUrl("") == "";
  }

  /** Under the rule as written an inner `www.` vanishes: the host `p + "www." + q` is looked up
      as `p + q`. The corrected rule looks it up unchanged. */
  lemma InnerWwwHost(p: string, q: string)
    requires p != []
    requires forall i :: 0 <= i < |p| ==> IsInertHostChar(p[i])
    requires forall i :: 0 <= i < |q| ==> IsInertHostChar(q[i])
    ensures CanonicalHost(p + "www." + q, RemoveEveryWww) == p + q
    ensures CanonicalHost(p + "www." + q, StripLeadingWww) == p + "www." + q
  {
    var host := p + "www." + q;
    InnerWwwLowered(p, q);
    InnerWwwRemoved(p, q);
    assert host[0] == p[0] != 'w';
  }

  /** Lowering changes nothing in `p + "www." + q` when `p` and `q` are inert. */
  lemma InnerWwwLowered(p: string, q: string)
    requires forall i :: 0 <= i < |p| ==> IsInertHostChar(p[i])
    requires forall i :: 0 <= i < |q| ==> IsInertHostChar(q[i])
    ensures Lower(p + "www." + q) == p + "www." + q
  {
    InnerWwwHasNoUpper(p, q);
    LowerNoop(p + "www." + q);
  }

  /** `p + "www." + q` holds no upper-case ASCII letter. */
  lemma InnerWwwHasNoUpper(p: string, q: string)
    requires forall i :: 0 <= i < |p| ==> IsInertHostChar(p[i])
    requires forall i :: 0 <= i < |q| ==> IsInertHostChar(q[i])
    ensures var host := p + "www." + q;
            forall i :: 0 <= i < |host| ==> !('A' <= host[i] <= 'Z')
  {
    var www := "www.";
    var host := p + www + q;
    forall i | 0 <= i < |host| ensures !('A' <= host[i] <= 'Z') {
      if i < |p| {
        assert host[i] == p[i];
      } else if i < |p| + 4 {
        var k := i - |p|;
        assert host[i] == www[k];
        assert www[0] == www[1] == www[2] == 'w' && www[3] == '.';
        assert k == 0 || k == 1 || k == 2 || k == 3;
      } else {
        var pw := p + www;
        assert |pw| == |p| + 4 && host == pw + q;
        assert host[i] == q[i - |pw|];
      }
    }
  }

  /** Removing every `www.` from `p + "www." + q` leaves `p + q`. */
  lemma InnerWwwRemoved(p: string, q: string)
    requires forall i :: 0 <= i < |p| ==> IsInertHostChar(p[i])
    requires forall i :: 0 <= i < |q| ==> IsInertHostChar(q[i])
    ensures RemoveAll(p + "www." + q, "www.") == p + q
  {
    var www := "www.";
    assert www[0] == 'w';
    assert p + www + q == p + (www + q);
    RemoveAllSkips(p, www + q, www);
    RemoveAllLeading(www, q);
    RemoveAllAbsent(q, www);
  }

  /** A non-empty URL is checked on its stripped form. */
  lemma ValidateUrlChecksStripped(url: string, allowed: seq<string>, rule: HostRule)
    requires url != ""
    ensures ValidateUrlBy(url, allowed, rule) == CheckParts(Strip(url), UrlParse(Strip(url)), allowed, rule)
  {
  }

  /** The host check as written lets a URL through whose host is neither an allowed domain nor
      its `www.` host: any host made of an allowed domain with `www.` inserted after a non-empty
      part of it (`bato.www.to`, say) is looked up without its `www.`. The corrected check
      refuses every such URL. */
  lemma InnerWwwAcceptedAsWritten(url: string, p: string, q: string)
    requires url != ""
    requires UrlParse(Strip(url)) == Some(UrlParts("https", p + "www." + q))
    requires p != [] && p + q in AllowedDomains
    requires forall i :: 0 <= i < |p| ==> IsInertHostChar(p[i])
    requires forall i :: 0 <= i < |q| ==> IsInertHostChar(q[i])
    ensures !HostWithin(p + "www." + q, AllowedDomains)
    ensures ValidateUrlAsWritten(url, AllowedDomains) == Success(Strip(url))
    ensures ValidateUrlCorrected(url, AllowedDomains) == Failure(DomainNotAllowed(p + "www." + q))
  {
    assert ValidateUrlAsWritten(url, AllowedDomains) == Success(Strip(url)) by {
      InnerWwwUnderRule(url, p, q, RemoveEveryWww);
    }
    assert ValidateUrlCorrected(url, AllowedDomains) == Failure(DomainNotAllowed(p + "www." + q)) by {
      InnerWwwUnderRule(url, p, q, StripLeadingWww);
    }
    InnerWwwNotWithin(p, q);
  }

  /** What `validate_url` makes of such a URL under either host rule. */
  lemma InnerWwwUnderRule(url: string, p: string, q: string, rule: HostRule)
    requires url != ""
    requires UrlParse(Strip(url)) == Some(UrlParts("https", p + "www." + q))
    requires p != [] && p + q in AllowedDomains
    requires forall i :: 0 <= i < |p| ==> IsInertHostChar(p[i])
    requires forall i :: 0 <= i < |q| ==> IsInertHostChar(q[i])
    ensures ValidateUrlBy(url, AllowedDomains, rule)
            == if rule == RemoveEveryWww then Success(Strip(url)) else Failure(DomainNotAllowed(p + "www." + q))
  {
    var stripped := Strip(url);
    InnerWwwParts(stripped, UrlParse(stripped), p, q);
    ValidateUrlChecksStripped(url, AllowedDomains, rule);
  }

  /** The host checks on a parsed URL whose host has `www.` inserted into an allowed domain. */
  lemma InnerWwwParts(stripped: string, parsed: Option<UrlParts>, p: string, q: string)
    requires parsed == Some(UrlParts("https", p + "www." + q))
    requires p != [] && p + q in AllowedDomains
    requires forall i :: 0 <= i < |p| ==> IsInertHostChar(p[i])
    requires forall i :: 0 <= i < |q| ==> IsInertHostChar(q[i])
    ensures CheckParts(stripped, parsed, AllowedDomains, RemoveEveryWww) == Success(stripped)
    ensures CheckParts(stripped, parsed, AllowedDomains, StripLeadingWww) == Failure(DomainNotAllowed(p + "www." + q))
  {
    InnerWwwHost(p, q);
    InnerWwwNotWithin(p, q);
    assert p + "www." + q !in AllowedDomains;
  }

  /** Every allowed domain has seven characters, so neither it nor its `www.` host is a host
      with `www.` inserted into an allowed domain after a non-empty, `w`-free start. */
  lemma InnerWwwNotWithin(p: string, q: string)
    requires p != [] && p + q in AllowedDomains
    requires forall i :: 0 <= i < |p| ==> IsInertHostChar(p[i])
    requires forall i :: 0 <= i < |q| ==> IsInertHostChar(q[i])
    ensures !HostWithin(p + "www." + q, AllowedDomains)
  {
    var host := p + "www." + q;
    InnerWwwLowered(p, q);
    forall d | d in AllowedDomains ensures host != d && host != "www." + d {
      assert |d| == 7 == |p + q|;
      assert host[0] == p[0] != 'w' == ("www." + d)[0];
    }
  }

  /** `https://bato.www.to/chapter/1` is such a URL: it meets every requirement of
      `InnerWwwAcceptedAsWritten` with `p` = `bato.` and `q` = `to`, since its host is
      `bato.www.to` and `bato.to` is allowed. */
  lemma InnerWwwExample(url: string)
    requires url == "https://bato.www.to/chapter/1"
    ensures url != ""
    ensures UrlParse(Strip(url)) == Some(UrlParts("https", "bato." + "www." + "to"))
    ensures "bato." + "to" in AllowedDomains
    ensures forall i :: 0 <= i < |"bato."| ==> IsInertHostChar("bato."[i])
    ensures forall i :: 0 <= i < |"to"| ==> IsInertHostChar("to"[i])
  {
    InnerWwwUrlStripped();
    ParseInnerWwwUrl();
    InnerWwwPieces();
    InnerWwwExampleInert("bato.", "to");
  }

  /** `bato.` and `to` are made of inert characters. */
  lemma InnerWwwExampleInert(p: string, q: string)
    requires p == "bato." && q == "to"
    ensures forall i :: 0 <= i < |p| ==> IsInertHostChar(p[i])
    ensures forall i :: 0 <= i < |q| ==> IsInertHostChar(q[i])
  {
    forall i | 0 <= i < |p| ensures IsInertHostChar(p[i]) {
      assert p[0] == 'b' && p[1] == 'a' && p[2] == 't' && p[3] == 'o' && p[4] == '.';
      assert i == 0 || i == 1 || i == 2 || i == 3 || i == 4;
    }
    forall i | 0 <= i < |q| ensures IsInertHostChar(q[i]) {
      assert q[0] == 't' && q[1] == 'o';
      assert i == 0 || i == 1;
    }
  }

  /** The pieces of the example host, put together. */
  lemma InnerWwwPieces()
    ensures "bato." + "www." + "to" == "bato.www.to"
    ensures "bato." + "to" == "bato.to" == AllowedDomains[1]
  {
    var h := "bato." + "www." + "to";
    assert |h| == 11;
    assert h[0] == 'b' && h[1] == 'a' && h[2] == 't' && h[3] == 'o' && h[4] == '.';
    assert h[5] == 'w' && h[6] == 'w' && h[7] == 'w' && h[8] == '.';
    assert h[9] == 't' && h[10] == 'o';
    var d := "bato." + "to";
    assert |d| == 7;
    assert d[0] == 'b' && d[1] == 'a' && d[2] == 't' && d[3] == 'o' && d[4] == '.';
    assert d[5] == 't' && d[6] == 'o';
  }

  /** The example URL has no surrounding whitespace. */
  lemma InnerWwwUrlStripped()
    ensures Strip("https://bato.www.to/chapter/1") == "https://bato.www.to/chapter/1"
  {
    var url := "https://bato.www.to/chapter/1";
    assert url[0] !in Whitespace && url[|url| - 1] !in Whitespace;
    StripCharsNoop(url, Whitespace);
  }

  /** Deleting characters no element of which occurs changes nothing. */
  lemma {:induction false} RemoveCharsNoop(s: string, cs: set<char>)
    requires forall i :: 0 <= i < |s| ==> s[i] !in cs
    ensures RemoveChars(s, cs) == s
  {
    if s != [] {
      RemoveCharsNoop(s[1..], cs);
    }
  }

  /** `urlparse` finds scheme `https` and network location `bato.www.to` in the example. */
  lemma ParseInnerWwwUrl()
    ensures UrlParse("https://bato.www.to/chapter/1") == Some(UrlParts("https", "bato.www.to"))
  {
    InnerWwwUrlClean();
    InnerWwwUrlScheme();
    InnerWwwUrlNetloc();
    ParsedFromPieces("https://bato.www.to/chapter/1", "//bato.www.to/chapter/1", 13);
  }

  /** `UrlParse` of a URL with nothing to clean, read off its scheme split and the end of its
      network location. */
  lemma ParsedFromPieces(url: string, rest: string, end: nat)
    requires RemoveChars(TrimStart(url, C0ControlOrSpace), UnsafeUrlChars) == url
    requires SplitScheme(url) == ("https", rest)
    requires StartsWith(rest, "//") && 2 <= end <= |rest| && FindFirst(rest, NetlocDelimiters, 2) == Some(end)
    requires '[' !in rest[2..end] && ']' !in rest[2..end]
    ensures UrlParse(url) == Some(UrlParts("https", rest[2..end]))
  {
  }

  /** The network location runs from after `//` to the first `/`. */
  lemma InnerWwwUrlNetloc()
    ensures var rest := "//bato.www.to/chapter/1";
            && StartsWith(rest, "//")
            && FindFirst(rest, NetlocDelimiters, 2) == Some(13)
            && rest[2..13] == "bato.www.to"
            && '[' !in rest[2..13] && ']' !in rest[2..13]
  {
    InnerWwwUrlNetlocEnd();
    InnerWwwUrlHost();
  }

  /** The first `/`, `?` or `#` after the example's `//` is at index 13. */
  lemma InnerWwwUrlNetlocEnd()
    ensures FindFirst("//bato.www.to/chapter/1", NetlocDelimiters, 2) == Some(13)
  {
    FindFirstIs("//bato.www.to/chapter/1", NetlocDelimiters, 2, 13);
  }

  /** The example's network location is `bato.www.to`, with no brackets. */
  lemma InnerWwwUrlHost()
    ensures var rest := "//bato.www.to/chapter/1";
            && StartsWith(rest, "//")
            && rest[2..13] == "bato.www.to"
            && '[' !in rest[2..13] && ']' !in rest[2..13]
  {
    InnerWwwUrlHostSlice();
    var h := "bato.www.to";
    assert h[0] == 'b' && h[1] == 'a' && h[2] == 't' && h[3] == 'o' && h[4] == '.';
    assert h[5] == 'w' && h[6] == 'w' && h[7] == 'w' && h[8] == '.';
    assert h[9] == 't' && h[10] == 'o';
  }

  /** Characters 2..13 of the example's remainder spell `bato.www.to`. */
  lemma InnerWwwUrlHostSlice()
    ensures var rest := "//bato.www.to/chapter/1";
            StartsWith(rest, "//") && rest[2..13] == "bato.www.to"
  {
    var rest := "//bato.www.to/chapter/1";
    assert rest[..2] == "//";
  }

  /** The example has no leading control characters and no tab, CR or LF to delete. */
  lemma InnerWwwUrlClean()
    ensures var url := "https://bato.www.to/chapter/1";
            RemoveChars(TrimStart(url, C0ControlOrSpace), UnsafeUrlChars) == url
  {
    var url := "https://bato.www.to/chapter/1";
    assert url[0] !in C0ControlOrSpace;
    assert TrimStart(url, C0ControlOrSpace) == url;
    RemoveCharsNoop(url, UnsafeUrlChars);
  }

  /** The text before the first `:` of the example is the scheme `https`. */
  lemma InnerWwwUrlScheme()
    ensures var url := "https://bato.www.to/chapter/1";
            SplitScheme(url) == ("https", "//bato.www.to/chapter/1")
  {
    InnerWwwUrlColon();
    InnerWwwUrlAfterColon();
    LowerNoop("https");
  }

  /** The example's first `:` is at index 5, after the scheme characters of `https`. */
  lemma InnerWwwUrlColon()
    ensures var url := "https://bato.www.to/chapter/1";
            FindFirst(url, {':'}, 0) == Some(5) && url[..5] == "https"
            && IsAsciiLetter(url[0]) && forall k :: 0 <= k < 5 ==> IsSchemeChar(url[k])
  {
    var url := "https://bato.www.to/chapter/1";
    FindFirstIs(url, {':'}, 0, 5);
    assert url[..5] == "https";
  }

  /** What follows the example's first `:`. */
  lemma InnerWwwUrlAfterColon()
    ensures "https://bato.www.to/chapter/1"[6..] == "//bato.www.to/chapter/1"
  {
  }

  /** `validate_chapter_url`: a URL `validate_url` accepts whose lower-cased form contains
      `/chapter/`. The host check follows `rule`; `RemoveEveryWww` is the code as written. */
  function ValidateChapterUrl(url: string, rule: HostRule): (r: Result<string, ValidationError>)
    ensures r.Success? <==> url != "" && PartsPass(UrlParse(Strip(url)), AllowedDomains, rule)
                            && Contains(Lower(Strip(url)), "/chapter/")
    ensures r.Success? ==> r.value == Strip(url)
    ensures ValidateUrlBy(url, AllowedDomains, rule).Failure? ==> r == ValidateUrlBy(url, AllowedDomains, rule)
    ensures ValidateUrlBy(url, AllowedDomains, rule).Success? && !Contains(Lower(Strip(url)), "/chapter/")
            ==> r == Failure(NotAChapterUrl(url))
  {
    match ValidateUrlBy(url, AllowedDomains, rule)
    case Failure(e) => Failure(e)
    case Success(validated) =>
      if !Contains(Lower(validated), "/chapter/") then Failure(NotAChapterUrl(url))
      else Success(validated)
  }

  /** `validate_manga_url`: a URL `validate_url` accepts whose lower-cased form contains
      `/series/` or `/title/`. The host check follows `rule`, as for `ValidateChapterUrl`. */
  function ValidateMangaUrl(url: string, rule: HostRule): (r: Result<string, ValidationError>)
    ensures r.Success? <==> url != "" && PartsPass(UrlParse(Strip(url)), AllowedDomains, rule)
                            && (Contains(Lower(Strip(url)), "/series/") || Contains(Lower(Strip(url)), "/title/"))
    ensures r.Success? ==> r.value == Strip(url)
    ensures ValidateUrlBy(url, AllowedDomains, rule).Failure? ==> r == ValidateUrlBy(url, AllowedDomains, rule)
    ensures ValidateUrlBy(url, AllowedDomains, rule).Success?
            && !Contains(Lower(Strip(url)), "/series/") && !Contains(Lower(Strip(url)), "/title/")
            ==> r == Failure(NotAMangaUrl(url))
  {
    match ValidateUrlBy(url, AllowedDomains, rule)
    case Failure(e) => Failure(e)
    case Success(validated) =>
      if !Contains(Lower(validated), "/series/") && !Contains(Lower(validated), "/title/") then Failure(NotAMangaUrl(url))
      else Success(validated)
  }

  /** The finding carried to `validate_chapter_url`: a chapter URL on a host with `www.` inserted
      into an allowed domain is accepted as written and refused under the corrected rule. */
  lemma InnerWwwChapterUrl(url: string, p: string, q: string)
    requires url != ""
    requires UrlParse(Strip(url)) == Some(UrlParts("https", p + "www." + q))
    requires Contains(Lower(Strip(url)), "/chapter/")
    requires p != [] && p + q in AllowedDomains
    requires forall i :: 0 <= i < |p| ==> IsInertHostChar(p[i])
    requires forall i :: 0 <= i < |q| ==> IsInertHostChar(q[i])
    ensures ValidateChapterUrl(url, RemoveEveryWww) == Success(Strip(url))
    ensures ValidateChapterUrl(url, StripLeadingWww) == Failure(DomainNotAllowed(p + "www." + q))
  {
    InnerWwwUnderRule(url, p, q, RemoveEveryWww);
    InnerWwwUnderRule(url, p, q, StripLeadingWww);
  }
}
