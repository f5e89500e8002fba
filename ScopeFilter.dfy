/** `is_valid`: whether a crawler may enqueue a URL. Three checks run in
    order on the parts `urlparse` splits the URL into: the scheme, the
    domain (by substring search in the network location) and the file
    extension of the lowercased path. */
module ScopeFilter {
  import opened Strings
  import opened Urls

  const AllowedSchemes: set<string> := {"http", "https"}

  /** Each is searched for as a substring of the network location. */
  const ValidDomains: seq<string> :=
    [".ics.uci.edu", ".cs.uci.edu", ".informatics.uci.edu", ".stat.uci.edu"]

  /** The alternatives of the extension pattern, with `jpe?g` and `tiff?`
      written out as `jpg`, `jpeg`, `tif` and `tiff`. */
  const BlacklistedExtensions: set<string> := {
    "css", "js", "bmp", "gif", "jpg", "jpeg", "ico",
    "png", "tif", "tiff", "mid", "mp2", "mp3", "mp4",
    "wav", "avi", "mov", "mpeg", "ram", "m4v", "mkv", "ogg", "ogv", "pdf",
    "ps", "eps", "tex", "ppt", "pptx", "doc", "docx", "xls", "xlsx", "names",
    "data", "dat", "exe", "bz2", "tar", "msi", "bin", "7z", "psd", "dmg", "iso",
    "epub", "dll", "cnf", "tgz", "sha1",
    "thmx", "mso", "arff", "rtf", "jar", "csv",
    "rm", "smil", "wmv", "swf", "wma", "zip", "rar", "gz"
  }

  predicate SchemeAllowed(scheme: string) {
    scheme in AllowedSchemes
  }

  /** Python's `any(domain in netloc for domain in domains)`. */
  function AnyDomainIn(domains: seq<string>, netloc: string): bool {
    if domains == [] then false
    else Contains(netloc, domains[0]) || AnyDomainIn(domains[1..], netloc)
  }

  predicate DomainAllowed(netloc: string) {
    AnyDomainIn(ValidDomains, netloc)
  }

  /** What the pattern accepts after the last `\.`: one blacklisted
      extension, optionally followed by the single trailing newline at
      which `$` also matches. */
  predicate ExtensionTail(t: string, exts: set<string>) {
    t in exts || (|t| > 0 && t[|t| - 1] == '\n' && t[..|t| - 1] in exts)
  }

  /** `re.match(r".*\.(e1|e2|...)$", s)` for the alternatives `exts`
      succeeds: a prefix without newlines (`.` does not match one), a dot,
      then an accepted tail. */
  predicate ExtensionPatternMatches(s: string, exts: set<string>) {
    exists k :: 0 <= k < |s| && s[k] == '.' && '\n' !in s[..k] && ExtensionTail(s[k + 1..], exts)
  }

  predicate ExtensionBlocked(path: string) {
    ExtensionPatternMatches(Lower(path), BlacklistedExtensions)
  }

  /** Which of the checks decided: the rejection that returned first, or
      admission when all three passed. */
  datatype Verdict = Admitted | WrongScheme | OutsideDomains | BlacklistedType

  /** The checks of `is_valid` in source order, each returning early. */
  function Check(p: UrlParts): Verdict {
    if !SchemeAllowed(p.scheme) then WrongScheme
    else if !DomainAllowed(p.netloc) then OutsideDomains
    else if ExtensionBlocked(p.path) then BlacklistedType
    else Admitted
  }

  /** `is_valid` on an already split URL: true exactly when all three
      checks pass. */
  function IsValidParts(p: UrlParts): (r: bool)
    ensures r <==> SchemeAllowed(p.scheme) && DomainAllowed(p.netloc) && !ExtensionBlocked(p.path)
  {
    Check(p) == Admitted
  }

  /** `is_valid(url)`, with `urlparse` supplied as `split`. */
  function IsValid(split: string -> UrlParts, url: string): bool {
    IsValidParts(split(url))
  }

  // ---------------------------------------------------------------------
  // The scheme check

  /** Any scheme other than exactly `http` or `https` is rejected, whatever
      the rest of the URL is. */
  lemma WrongSchemeRejected(p: UrlParts, netloc: string, path: string)
    requires p.scheme != "http" && p.scheme != "https"
    ensures Check(p.(netloc := netloc, path := path)) == WrongScheme
    ensures !IsValidParts(p)
  {
  }

  // ---------------------------------------------------------------------
  // The domain check

  /** `any` over the list is true exactly when some listed domain occurs. */
  lemma {:induction false} AnyDomainInIff(domains: seq<string>, netloc: string)
    ensures AnyDomainIn(domains, netloc) <==> exists d :: d in domains && Contains(netloc, d)
  {
    if domains != [] {
      AnyDomainInIff(domains[1..], netloc);
      if Contains(netloc, domains[0]) {
        assert domains[0] in domains;
      } else if AnyDomainIn(domains[1..], netloc) {
        var d :| d in domains[1..] && Contains(netloc, d);
        assert d in domains;
      } else {
        forall d | d in domains ensures !Contains(netloc, d) {
          assert d == domains[0] || d in domains[1..];
        }
      }
    }
  }

  /** The domain check is a substring search: it passes exactly when one
      of the four domains, leading dot included, occurs at some position
      of the network location. */
  lemma DomainAllowedIff(netloc: string)
    ensures DomainAllowed(netloc) <==>
      exists d, i: nat :: d in ValidDomains && OccursAt(netloc, d, i)
  {
    AnyDomainInIff(ValidDomains, netloc);
    forall d ensures Contains(netloc, d) <==> exists i: nat :: OccursAt(netloc, d, i) {
      ContainsIff(netloc, d);
    }
  }

  /** A network location containing a domain occurrence passes the domain
      check, wherever the occurrence is. */
  lemma DomainOccurrenceAllowed(netloc: string, d: string, i: nat)
    requires d in ValidDomains && OccursAt(netloc, d, i)
    ensures DomainAllowed(netloc)
  {
    ContainsAt(netloc, d, i);
    AnyDomainInIff(ValidDomains, netloc);
  }

  /** A bare domain has no leading dot, so it fails the check. */
  lemma BareDomainRejected()
    ensures Check(UrlParts("http", "ics.uci.edu", "/", "", "", "")) == OutsideDomains
  {
    var n := "ics.uci.edu";
    var d := ".cs.uci.edu";
    assert n[..|d|] != d by { assert n[0] != d[0]; }
    assert !Contains(n, d);
  }

  /** A host that merely contains a listed domain followed by more labels
      passes: the search is not anchored at the end of the host. */
  lemma EmbeddedDomainAccepted()
    ensures Check(UrlParts("http", "a.ics.uci.edu.evil.com", "/", "", "", "")) == Admitted
  {
    var n := "a.ics.uci.edu.evil.com";
    assert n[1..13] == ".ics.uci.edu";
    DomainOccurrenceAllowed(n, ".ics.uci.edu", 1);
    NoDotNotBlocked("/");
  }

  /** A subdomain of a listed domain is accepted. */
  lemma SubdomainAccepted()
    ensures Check(UrlParts("http", "sub.ics.uci.edu", "/page", "", "", "")) == Admitted
  {
  }

  /** A listed domain appearing only in the path does not help. */
  lemma DomainInPathRejected()
    ensures Check(UrlParts("http", "evil.com", "/ics.uci.edu", "", "", "")) == OutsideDomains
  {
  }

  /** The host the examples below use passes the domain check. */
  lemma WwwIcsAllowed()
    ensures DomainAllowed("www.ics.uci.edu")
  {
  }

  // ---------------------------------------------------------------------
  // The extension check

  /** A path without a dot never matches the extension pattern. */
  lemma NoDotNotBlocked(path: string)
    requires '.' !in path
    ensures !ExtensionBlocked(path)
  {
  }

  /** A string ending in a dot and one of `exts`, with no newline before
      that dot, matches the pattern. */
  lemma SuffixMatches(s: string, exts: set<string>, ext: string)
    requires ext in exts
    requires EndsWith(s, "." + ext)
    requires '\n' !in s[..|s| - |ext| - 1]
    ensures ExtensionPatternMatches(s, exts)
  {
    var k := |s| - |ext| - 1;
    assert s[k..] == "." + ext;
    assert s[k] == '.';
    assert s[k + 1..] == ext;
  }

  /** A path whose lowercased form ends in a dot and a blacklisted extension
      is rejected; `Lower` makes this independent of letter case. */
  lemma BlacklistedSuffixBlocked(path: string, ext: string)
    requires ext in BlacklistedExtensions
    requires '\n' !in path
    requires EndsWith(Lower(path), "." + ext)
    ensures ExtensionBlocked(path)
  {
    var lp := Lower(path);
    var k := |lp| - |ext| - 1;
    forall j | 0 <= j < k ensures lp[..k][j] != '\n' {
      assert path[j] != '\n';
    }
    SuffixMatches(lp, BlacklistedExtensions, ext);
  }

  /** A match ends in a dot and one of `exts`, possibly followed by one
      newline. */
  lemma MatchEndsInExtension(s: string, exts: set<string>) returns (ext: string)
    requires ExtensionPatternMatches(s, exts)
    ensures ext in exts && (EndsWith(s, "." + ext) || EndsWith(s, "." + ext + "\n"))
  {
    var k :| 0 <= k < |s| && s[k] == '.' && '\n' !in s[..k] && ExtensionTail(s[k + 1..], exts);
    var t := s[k + 1..];
    if t in exts {
      ext := t;
      assert s[|s| - |"." + t|..] == "." + t;
    } else {
      ext := t[..|t| - 1];
      assert s[|s| - |"." + ext + "\n"|..] == "." + ext + "\n";
    }
  }

  /** Conversely, the extension check only rejects a path whose lowercased
      form ends in a dot and a blacklisted extension, possibly followed by
      one newline. */
  lemma BlockedOnlyOnBlacklistedSuffix(path: string)
    requires ExtensionBlocked(path)
    ensures exists ext :: (ext in BlacklistedExtensions &&
      (EndsWith(Lower(path), "." + ext) || EndsWith(Lower(path), "." + ext + "\n")))
  {
    var ext := MatchEndsInExtension(Lower(path), BlacklistedExtensions);
  }

  /** Letter case does not matter: an upper-case `.PDF` is rejected. */
  lemma UpperCaseExtensionRejected()
    ensures Check(UrlParts("https", "www.ics.uci.edu", "/slides/Talk.PDF", "", "", "")) == BlacklistedType
  {
    WwwIcsAllowed();
    assert Lower("/slides/Talk.PDF") == "/slides/talk.pdf";
    BlacklistedSuffixBlocked("/slides/Talk.PDF", "pdf");
  }

  /** `/a.` followed by a blacklisted extension written in lower case is
      rejected. */
  lemma LowerCasePathBlocked(ext: string)
    requires ext in BlacklistedExtensions
    requires forall i :: 0 <= i < |ext| ==> 'a' <= ext[i] <= 'z'
    ensures ExtensionBlocked("/a." + ext)
  {
    var path := "/a." + ext;
    forall i | 0 <= i < |path| ensures LowerChar(path[i]) == path[i] {
      if i >= 3 {
        assert path[i] == ext[i - 3];
      }
    }
    assert Lower(path) == path;
    assert path[|path| - |"." + ext|..] == "." + ext;
    BlacklistedSuffixBlocked(path, ext);
  }

  /** `jpe?g` and `tiff?` cover both spellings of each extension. */
  lemma OptionalLetterVariantsBlocked()
    ensures ExtensionBlocked("/a.jpg") && ExtensionBlocked("/a.jpeg")
    ensures ExtensionBlocked("/a.tif") && ExtensionBlocked("/a.tiff")
  {
    LowerCasePathBlocked("jpg");
    assert "/a." + "jpg" == "/a.jpg";
    LowerCasePathBlocked("jpeg");
    assert "/a." + "jpeg" == "/a.jpeg";
    LowerCasePathBlocked("tif");
    assert "/a." + "tif" == "/a.tif";
    LowerCasePathBlocked("tiff");
    assert "/a." + "tiff" == "/a.tiff";
  }

  /** The extension check reads only the path: the query string, the
      parameters and the fragment never change the verdict. */
  lemma VerdictIgnoresQuery(p: UrlParts, params: string, query: string, fragment: string)
    ensures Check(p.(params := params, query := query, fragment := fragment)) == Check(p)
  {
  }

  /** A blacklisted extension in the query string is not rejected. */
  lemma ExtensionInQueryAdmitted()
    ensures Check(UrlParts("http", "www.ics.uci.edu", "/a", "", "f=x.pdf", "")) == Admitted
  {
  }

  // ---------------------------------------------------------------------
  // Order of the checks

  /** Once the domain check fails, the path is never looked at. */
  lemma DomainCheckedBeforeExtension(p: UrlParts, path: string)
    requires SchemeAllowed(p.scheme) && !DomainAllowed(p.netloc)
    ensures Check(p.(path := path)) == OutsideDomains
  {
  }
}
