/** `scraper(url, resp)`: the links found on a page, keeping those that
    `is_valid` admits, in their original order. */
module Scraping {
  import opened Urls
  import opened ScopeFilter
  import opened LinkExtractor

  /** `[link for link in links if is_valid(link)]`. */
  function KeepValid(split: string -> UrlParts, links: seq<string>): seq<string> {
    if links == [] then []
    else (if IsValid(split, links[0]) then [links[0]] else []) + KeepValid(split, links[1..])
  }

  /** `sub` is `s` with some elements left out, the rest in order. */
  predicate IsSubsequence(sub: seq<string>, s: seq<string>)
    decreases |s|
  {
    if sub == [] then true
    else if s == [] then false
    else if sub[0] == s[0] then IsSubsequence(sub[1..], s[1..])
    else IsSubsequence(sub, s[1..])
  }

  lemma {:induction false} SubsequenceLength(sub: seq<string>, s: seq<string>)
    requires IsSubsequence(sub, s)
    ensures |sub| <= |s|
    decreases |s|
  {
    if sub != [] && s != [] {
      if sub[0] == s[0] {
        SubsequenceLength(sub[1..], s[1..]);
      } else {
        SubsequenceLength(sub, s[1..]);
      }
    }
  }

  /** Every kept link is valid. */
  lemma {:induction false} KeptLinksValid(split: string -> UrlParts, links: seq<string>)
    ensures forall l :: l in KeepValid(split, links) ==> IsValid(split, l)
  {
    if links != [] {
      KeptLinksValid(split, links[1..]);
    }
  }

  /** Filtering keeps the order: the result is a subsequence of the input,
      and so no longer than it. */
  lemma {:induction false} KeepValidSubsequence(split: string -> UrlParts, links: seq<string>)
    ensures IsSubsequence(KeepValid(split, links), links)
    ensures |KeepValid(split, links)| <= |links|
  {
    if links != [] {
      KeepValidSubsequence(split, links[1..]);
      var rest := KeepValid(split, links[1..]);
      if IsValid(split, links[0]) {
        assert ([links[0]] + rest)[1..] == rest;
      } else {
        assert [] + rest == rest;
        TailSubsequence(rest, links);
      }
      SubsequenceLength(KeepValid(split, links), links);
    }
  }

  /** A subsequence of the tail is a subsequence of the whole. */
  lemma {:induction false} TailSubsequence(sub: seq<string>, s: seq<string>)
    requires s != [] && IsSubsequence(sub, s[1..])
    ensures IsSubsequence(sub, s)
    decreases |s|, |sub|
  {
    if sub != [] && sub[0] == s[0] {
      // sub[1..] is a subsequence of s[1..] as well.
      DropHead(sub, s[1..]);
    }
  }

  /** Dropping the first element of a subsequence keeps it one. */
  lemma {:induction false} DropHead(sub: seq<string>, s: seq<string>)
    requires sub != [] && IsSubsequence(sub, s)
    ensures IsSubsequence(sub[1..], s)
    decreases |s|, |sub|
  {
    if sub[0] == s[0] {
      TailSubsequence(sub[1..], s);
    } else {
      DropHead(sub, s[1..]);
      TailSubsequence(sub[1..], s);
    }
  }

  /** A valid link occurs in the result as often as in the input, an
      invalid one never. */
  lemma {:induction false} KeepValidMultiplicity(split: string -> UrlParts, links: seq<string>, l: string)
    ensures multiset(KeepValid(split, links))[l]
         == if IsValid(split, l) then multiset(links)[l] else 0
  {
    if links != [] {
      KeepValidMultiplicity(split, links[1..], l);
      assert links == [links[0]] + links[1..];
    }
  }

  /** `scraper(url, resp)`, with the page given as parser events, `urljoin`
      as `join` and `urlparse` as `split`. */
  method Scraper(url: string, events: seq<Event>, join: (string, string) -> string, split: string -> UrlParts)
    returns (links: seq<string>)
    ensures IsSubsequence(links, ExtractedLinks(url, join, events))
    ensures |links| <= |ExtractedLinks(url, join, events)|
    ensures forall l :: l in links ==> IsValid(split, l) && '#' !in l
    ensures forall l ::
      multiset(links)[l] == if IsValid(split, l) then multiset(ExtractedLinks(url, join, events))[l] else 0
  {
    var extracted := ExtractNextLinks(url, join, events);
    links := KeepValid(split, extracted);
    KeepValidSubsequence(split, extracted);
    KeptLinksValid(split, extracted);
    forall l | l in links ensures '#' !in l {
      KeepValidMultiplicity(split, extracted, l);
      NoFragments(url, join, events, l);
    }
    forall l ensures multiset(links)[l] == if IsValid(split, l) then multiset(extracted)[l] else 0 {
      KeepValidMultiplicity(split, extracted, l);
    }
  }
}
