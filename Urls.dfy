/** URLs as `urllib.parse` splits them, and fragment removal. */
module Urls {

  /** The six components `urlparse` returns for a URL. Splitting a URL
      string into these parts is done by the caller-supplied `split`
      function of the scope filter; this record is its result. */
  datatype UrlParts = UrlParts(
    scheme: string,
    netloc: string,
    path: string,
    params: string,
    query: string,
    fragment: string)

  /** `urldefrag(url)[0]`: the URL with its fragment removed. The fragment
      starts at the first `#`, so the result is the part of `url` before the
      first `#`, or all of `url` when it has none. */
  function Defrag(url: string): (r: string)
    ensures '#' !in r
    ensures r <= url
    ensures '#' in url ==> |r| < |url| && url[|r|] == '#'
    ensures '#' !in url ==> r == url
  {
    if url == [] then []
    else if url[0] == '#' then []
    else [url[0]] + Defrag(url[1..])
  }

  /** Removing the fragment a second time changes nothing. */
  lemma DefragIdempotent(url: string)
    ensures Defrag(Defrag(url)) == Defrag(url)
  {
  }

  /** Two URLs that differ only in their fragment defragment to the same URL. */
  lemma {:induction false} DefragIgnoresFragment(url: string, frag1: string, frag2: string)
    requires '#' !in url
    ensures Defrag(url + "#" + frag1) == Defrag(url + "#" + frag2) == url
  {
    var u1, u2 := url + "#" + frag1, url + "#" + frag2;
    assert u1[..|url|] == url && u1[|url|] == '#';
    assert u2[..|url|] == url && u2[|url|] == '#';
    var r1, r2 := Defrag(u1), Defrag(u2);
    assert r1 == u1[..|r1|];
    assert r2 == u2[..|r2|];
  }
}
