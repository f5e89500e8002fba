# Link scraper of a UCI web crawler, modelled in Dafny

The crawler's page handler `scraper(url, resp)` takes a fetched page and returns the links to enqueue:

- `extract_next_links` collects the `href` of every `a` tag. Each is resolved against the page URL with `urljoin`, and `urldefrag` removes its fragment.
- `scraper` keeps, in order, the links that `is_valid` admits.
- `is_valid` makes three checks in order on the parts `urlparse` splits a URL into:
  - the scheme must be `http` or `https`;
  - one of `.ics.uci.edu`, `.cs.uci.edu`, `.informatics.uci.edu`, `.stat.uci.edu` must occur as a substring of the network location;
  - the lowercased path must not match the file-extension pattern (images, media, archives, office documents, …).

Modules:

- `Strings`: substring search, lowercasing, `endswith`.
- `Urls`: the six-part URL record `UrlParts` and `Defrag`.
- `ScopeFilter`: `is_valid`. `Check` runs the three checks in source order and returns a `Verdict` naming the return statement that fired. `IsValidParts` is `Check(p) == Admitted`, and `IsValid(split, url)` applies it to `split(url)`.
- `LinkExtractor`: the page is a sequence of parser `Event`s. `ExtractNextLinks` loops over the events and `HandleStartTag` loops over a tag's attributes; both are proved equal to the specification function `ExtractedLinks`.
- `Scraping`: `KeepValid` is the list comprehension, and the method `Scraper` composes the two.

The domain check is a substring search over the whole network location, including any user-info and port, with no anchoring to the end of the host. So a bare `ics.uci.edu` is rejected, because every listed string starts with a dot, and `a.ics.uci.edu.evil.com` is accepted (`BareDomainRejected`, `EmbeddedDomainAccepted`).

Two further points about the code's behaviour:

- The extension pattern tests the end of the whole path, not only its final segment.
- The extractor itself does not filter; only `scraper` does.

The extension pattern `re.match(r".*\.(…)$", path.lower())` is modelled with its exact regular-expression meaning. `.` matches any character except a newline, so the part before the last `\.` must be newline-free. `$` also matches just before one trailing newline.

## Model

| member | source | states |
|---|---|---|
| `Strings.ContainsIff` | scraper.py:54 | Python's `domain in netloc` holds exactly when the domain string occurs at some position of the network location |
| `Strings.LowerChar` | scraper.py:65 | lowercasing never creates or removes a newline or a dot, so the pattern's structure survives `.lower()` |
| `Urls.Defrag` | scraper.py:27-28 | the defragmented URL is the part before the first `#`: a prefix of the input without `#`, the whole input when it has no `#` |
| `Urls.DefragIdempotent` | scraper.py:28 | removing the fragment twice is the same as once |
| `Urls.DefragIgnoresFragment` | scraper.py:26-28 | URLs that differ only in their fragment become the same URL |
| `ScopeFilter.IsValidParts` | scraper.py:44-68 | `is_valid` is true exactly when the scheme, domain and extension checks all pass |
| `ScopeFilter.WrongSchemeRejected` | scraper.py:45-46 | any scheme other than exactly `http` or `https` is rejected by the first check, whatever the host and path are |
| `ScopeFilter.AnyDomainInIff` | scraper.py:54 | `any(domain in netloc for domain in domains)` holds exactly when some listed domain is a substring of the network location |
| `ScopeFilter.DomainAllowedIff` | scraper.py:48-55 | the domain check passes exactly when one of the four dotted domains occurs at some position of the network location |
| `ScopeFilter.DomainOccurrenceAllowed` | scraper.py:48-55 | any occurrence of a listed domain, anywhere in the network location, is enough to pass |
| `ScopeFilter.BareDomainRejected` | scraper.py:48-55 | `http://ics.uci.edu/` is rejected by the domain check, because the listed strings carry a leading dot |
| `ScopeFilter.EmbeddedDomainAccepted` | scraper.py:44-68 | `http://a.ics.uci.edu.evil.com/` is admitted, because the search is not anchored to the end of the host |
| `ScopeFilter.SubdomainAccepted` | scraper.py:44-68 | `http://sub.ics.uci.edu/page` is admitted |
| `ScopeFilter.DomainInPathRejected` | scraper.py:54-55 | `http://evil.com/ics.uci.edu` is rejected: only the network location is searched |
| `ScopeFilter.DomainCheckedBeforeExtension` | scraper.py:54-57 | once the domain check fails, the path cannot change the verdict |
| `ScopeFilter.NoDotNotBlocked` | scraper.py:57-66 | a path without a dot never matches the extension pattern |
| `ScopeFilter.SuffixMatches` | scraper.py:57-65 | a string ending in a dot and a listed extension, newline-free before that dot, matches the pattern |
| `ScopeFilter.BlacklistedSuffixBlocked` | scraper.py:57-66 | a newline-free path whose lowercased form ends in `.` and a blacklisted extension is rejected, whatever its letter case |
| `ScopeFilter.MatchEndsInExtension` | scraper.py:57-65 | every match ends in `.` and a listed extension, optionally followed by one newline |
| `ScopeFilter.BlockedOnlyOnBlacklistedSuffix` | scraper.py:57-66 | the extension check rejects only paths whose lowercased form ends in `.` and a blacklisted extension, with at most one newline after it |
| `ScopeFilter.UpperCaseExtensionRejected` | scraper.py:57-66 | `https://www.ics.uci.edu/slides/Talk.PDF` is rejected by the extension check |
| `ScopeFilter.OptionalLetterVariantsBlocked` | scraper.py:57-59 | `jpe?g` and `tiff?` block `.jpg`, `.jpeg`, `.tif` and `.tiff` |
| `ScopeFilter.VerdictIgnoresQuery` | scraper.py:44-65 | the query, parameters and fragment never change the verdict |
| `ScopeFilter.ExtensionInQueryAdmitted` | scraper.py:57-68 | `http://www.ics.uci.edu/a?f=x.pdf` is admitted: the blacklisted extension is in the query, not the path |
| `LinkExtractor.HandleStartTag` | scraper.py:21-29 | the callback appends exactly the entries of the tag, one per `href` attribute of an `a` tag, in attribute order, and nothing for other tags |
| `LinkExtractor.ExtractNextLinks` | scraper.py:13-38 | the returned list is the events' entries in event order, the specification `ExtractedLinks` |
| `LinkExtractor.ExtractedLinksCount` | scraper.py:21-29 | the list has exactly one entry per `href` attribute of each `a` start tag |
| `LinkExtractor.ExtractedLinksAppend` | scraper.py:36 | entries appear in event order: a page fed in two parts yields the first part's entries, then the second's |
| `LinkExtractor.NoAnchorNoLinks` | scraper.py:22 | events other than `a` start tags contribute nothing |
| `LinkExtractor.SingleAnchor` | scraper.py:22-29 | `<a href=h>` contributes exactly `urldefrag(urljoin(url, h))[0]` |
| `LinkExtractor.HrefExtracted` | scraper.py:22-29 | every `href` of every `a` tag yields its entry in the list |
| `LinkExtractor.ExtractedFromHref` | scraper.py:22-29 | every entry is the defragmented join of some `href` of some `a` tag |
| `LinkExtractor.NoFragments` | scraper.py:26-29 | no extracted entry carries a fragment |
| `Scraping.KeptLinksValid` | scraper.py:9 | every link the comprehension keeps satisfies `is_valid` |
| `Scraping.KeepValidSubsequence` | scraper.py:9 | the comprehension's result is an order-preserving subsequence of its input, hence no longer |
| `Scraping.KeepValidMultiplicity` | scraper.py:9 | a valid link occurs in the result as often as in the input, an invalid one never |
| `Scraping.Scraper` | scraper.py:7-9 | the result is an order-preserving subsequence of the extracted links. Every link in it is valid and fragment-free. Each valid link keeps its multiplicity and each invalid one is dropped |

## Left out

- HTML tokenization is not part of this model. The page is given as the sequence of events the parser reports, already with lowercased tag and attribute names and unescaped attribute values. The parser's buffering of an unfinished tag at the end of the input (`feed` without `close`) is not modelled.
- Decoding the response body as UTF-8 with undecodable bytes dropped is not modelled. The `Response` type is not part of this model either; the caller supplies the events.
- `urlparse` is the parameter `split` and `urljoin` is the parameter `join`; the model does not define either. Because `split` is a parameter, the lowercasing of the scheme and the stripping of tabs and newlines that `urlparse` performs are its business.
- `Urls.Defrag` cuts at the first `#`, which is where `urlsplit` puts the fragment. When the URL has a `#`, `urldefrag` splits it again with `urlsplit` and reassembles it with `urlunsplit`, and the model does not capture what that pass changes:
  - the scheme is lowercased;
  - leading control characters and spaces are stripped;
  - tabs, carriage returns and line feeds are removed;
  - an empty `?` or `;` is dropped;
  - a URL such as `https:a` is rewritten as `https:///a`.

  `urljoin` returns an href with a scheme different from the page's unchanged, so this is reachable. For example, the href `HTTPS://www.ics.uci.edu/x#y` becomes `https://www.ics.uci.edu/x` in the source but `HTTPS://www.ics.uci.edu/x` in the model. A URL without `#` is returned unchanged by both.
- `LinkExtractor.Reference` treats an attribute written without a value like an empty value. This is what `urljoin` does for a non-empty base: it returns the base for any empty reference. With an empty page URL, `urljoin('', None)` returns `None`, `urldefrag(None)` yields the empty byte string, and the source appends `b''`, which `is_valid` then rejects at its scheme check. The model instead appends `Defrag(join("", ""))`, and does not model that byte-string entry.
- `LinkExtractor.Entry` assumes that `join` and `split` never fail. In the source, `urljoin` raises `ValueError` for an href with an unbalanced bracket in its host (such as `http://[::1/x`), or with a network location that normalises to a URL delimiter. Nothing catches that error: it propagates through `handle_starttag`, `parser.feed`, `extract_next_links` and `scraper`, so the page yields no list at all. In the model, `Scraping.Scraper` always returns a list.
- `Strings.LowerChar` maps only `A`–`Z` and KELVIN SIGN (to `k`) and keeps every other character. Every other character that Python lowercases stays outside ASCII, except `İ`, which becomes `i` plus a combining dot; that combining dot can never be followed by the end of a match. So the extension pattern gives the same answer, but `Lower` is not Python's `lower()` on other characters.
- The `except TypeError` branch that prints and re-raises is not modelled. It is reachable only when `is_valid` is given something that is not a string, which the model's types rule out.
- Trap detection, content deduplication, page-quality gates, crawl statistics, the visited set and concurrent access are not modelled: this code base has no code for them.
