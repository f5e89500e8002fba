/** The href collection of `extract_next_links`. The page is given as the
    sequence of events the HTML parser reports; a `handle_starttag`
    callback appends one entry per `href` attribute of every `a` tag to a
    list, each entry being the href resolved against the page URL with its
    fragment removed. */
module LinkExtractor {
  import opened Urls

  datatype Option<T> = None | Some(value: T)

  /** An attribute as the parser reports it: its name and its value, which
      is `None` for an attribute written without `=`. */
  datatype Attribute = Attribute(name: string, value: Option<string>)

  /** The parser's events in document order. A self-closing `<a ... />` is
      reported as a start tag too. */
  datatype Event =
    | StartTag(tag: string, attrs: seq<Attribute>)
    | EndTag(tag: string)
    | Data(text: string)

  /** The reference an href attribute hands to `urljoin`. `urljoin` returns
      the base for any empty reference, so a missing value acts as `""`. */
  function Reference(a: Attribute): string {
    match a.value
    case Some(v) => v
    case None => ""
  }

  /** The entry one href attribute contributes. */
  function Entry(base: string, join: (string, string) -> string, a: Attribute): string {
    Defrag(join(base, Reference(a)))
  }

  /** What the inner `for attr in attrs` loop appends, in attribute order. */
  function AttrEntries(base: string, join: (string, string) -> string, attrs: seq<Attribute>): seq<string> {
    if attrs == [] then []
    else
      var last := attrs[|attrs| - 1];
      AttrEntries(base, join, attrs[..|attrs| - 1])
        + (if last.name == "href" then [Entry(base, join, last)] else [])
  }

  /** What one call of `handle_starttag` appends. */
  function TagEntries(base: string, join: (string, string) -> string, tag: string, attrs: seq<Attribute>): seq<string> {
    if tag == "a" then AttrEntries(base, join, attrs) else []
  }

  /** What one event appends: only start tags reach the callback. */
  function EventEntries(base: string, join: (string, string) -> string, e: Event): seq<string> {
    match e
    case StartTag(tag, attrs) => TagEntries(base, join, tag, attrs)
    case _ => []
  }

  /** The list `extract_next_links` returns for a page with these events. */
  function ExtractedLinks(base: string, join: (string, string) -> string, events: seq<Event>): seq<string> {
    if events == [] then []
    else ExtractedLinks(base, join, events[..|events| - 1]) + EventEntries(base, join, events[|events| - 1])
  }

  /** `handle_starttag(tag, attrs)`: appends to `links` one entry for each
      `href` attribute of an `a` tag. */
  method HandleStartTag(base: string, join: (string, string) -> string, tag: string, attrs: seq<Attribute>, links: seq<string>)
    returns (links': seq<string>)
    ensures links' == links + TagEntries(base, join, tag, attrs)
  {
    links' := links;
    if tag == "a" {
      for i := 0 to |attrs|
        invariant links' == links + AttrEntries(base, join, attrs[..i])
      {
        assert attrs[..i + 1][..i] == attrs[..i];
        if attrs[i].name == "href" {
          var absUrl := join(base, Reference(attrs[i]));
          var defragmented := Defrag(absUrl);
          links' := links' + [defragmented];
        }
      }
      assert attrs[..|attrs|] == attrs;
    }
  }

  /** `extract_next_links(url, resp)`: feeds the page's events in order,
      start tags going to `HandleStartTag`. */
  method ExtractNextLinks(base: string, join: (string, string) -> string, events: seq<Event>)
    returns (extracted: seq<string>)
    ensures extracted == ExtractedLinks(base, join, events)
  {
    extracted := [];
    for i := 0 to |events|
      invariant extracted == ExtractedLinks(base, join, events[..i])
    {
      assert events[..i + 1][..i] == events[..i];
      match events[i]
      case StartTag(tag, attrs) =>
        extracted := HandleStartTag(base, join, tag, attrs, extracted);
      case _ =>
    }
    assert events[..|events|] == events;
  }

  // ---------------------------------------------------------------------
  // Properties of the extracted list

  /** Number of `href` attributes in an attribute list. */
  function HrefCount(attrs: seq<Attribute>): nat {
    if attrs == [] then 0
    else (if attrs[0].name == "href" then 1 else 0) + HrefCount(attrs[1..])
  }

  /** Number of `href` attributes on `a` start tags in an event sequence. */
  function AnchorHrefCount(events: seq<Event>): nat {
    if events == [] then 0
    else
      (match events[0]
       case StartTag(tag, attrs) => if tag == "a" then HrefCount(attrs) else 0
       case _ => 0)
      + AnchorHrefCount(events[1..])
  }

  lemma {:induction false} HrefCountAppend(attrs: seq<Attribute>, a: Attribute)
    ensures HrefCount(attrs + [a]) == HrefCount(attrs) + (if a.name == "href" then 1 else 0)
  {
    if attrs != [] {
      assert (attrs + [a])[1..] == attrs[1..] + [a];
      HrefCountAppend(attrs[1..], a);
    }
  }

  lemma {:induction false} AttrEntriesLength(base: string, join: (string, string) -> string, attrs: seq<Attribute>)
    ensures |AttrEntries(base, join, attrs)| == HrefCount(attrs)
  {
    if attrs != [] {
      var init := attrs[..|attrs| - 1];
      AttrEntriesLength(base, join, init);
      assert attrs == init + [attrs[|attrs| - 1]];
      HrefCountAppend(init, attrs[|attrs| - 1]);
    }
  }

  lemma {:induction false} AnchorHrefCountAppend(events: seq<Event>, e: Event)
    ensures AnchorHrefCount(events + [e]) == AnchorHrefCount(events) + AnchorHrefCount([e])
  {
    if events != [] {
      assert (events + [e])[1..] == events[1..] + [e];
      AnchorHrefCountAppend(events[1..], e);
    }
  }

  /** Exactly one entry per `href` attribute of each `a` start tag. */
  lemma {:induction false} ExtractedLinksCount(base: string, join: (string, string) -> string, events: seq<Event>)
    ensures |ExtractedLinks(base, join, events)| == AnchorHrefCount(events)
  {
    if events != [] {
      var init, e := events[..|events| - 1], events[|events| - 1];
      ExtractedLinksCount(base, join, init);
      assert events == init + [e];
      AnchorHrefCountAppend(init, e);
      if e.StartTag? && e.tag == "a" {
        AttrEntriesLength(base, join, e.attrs);
      }
    }
  }

  /** Feeding one more event appends that event's entries. */
  lemma ExtractedLinksSnoc(base: string, join: (string, string) -> string, events: seq<Event>, e: Event)
    ensures ExtractedLinks(base, join, events + [e])
         == ExtractedLinks(base, join, events) + EventEntries(base, join, e)
  {
    assert (events + [e])[..|events|] == events;
  }

  /** Feeding two parts of a page one after the other gives the entries of
      the first part followed by those of the second: entries appear in
      event order. */
  lemma {:induction false} ExtractedLinksAppend(base: string, join: (string, string) -> string, first: seq<Event>, second: seq<Event>)
    ensures ExtractedLinks(base, join, first + second)
         == ExtractedLinks(base, join, first) + ExtractedLinks(base, join, second)
    decreases |second|
  {
    if second == [] {
      assert first + second == first;
    } else {
      var init, last := second[..|second| - 1], second[|second| - 1];
      var mid := first + init;
      assert second == init + [last];
      assert first + second == mid + [last];
      calc {
        ExtractedLinks(base, join, first + second);
        { ExtractedLinksSnoc(base, join, mid, last); }
        ExtractedLinks(base, join, mid) + EventEntries(base, join, last);
        { ExtractedLinksAppend(base, join, first, init); }
        ExtractedLinks(base, join, first) + (ExtractedLinks(base, join, init) + EventEntries(base, join, last));
        { ExtractedLinksSnoc(base, join, init, last); }
        ExtractedLinks(base, join, first) + ExtractedLinks(base, join, second);
      }
    }
  }

  /** Events other than `a` start tags contribute nothing. */
  lemma {:induction false} NoAnchorNoLinks(base: string, join: (string, string) -> string, events: seq<Event>)
    requires forall i :: 0 <= i < |events| ==> !(events[i].StartTag? && events[i].tag == "a")
    ensures ExtractedLinks(base, join, events) == []
  {
    if events != [] {
      NoAnchorNoLinks(base, join, events[..|events| - 1]);
    }
  }

  /** An `a` tag with a single `href` contributes exactly its entry. */
  lemma SingleAnchor(base: string, join: (string, string) -> string, href: string)
    ensures ExtractedLinks(base, join, [StartTag("a", [Attribute("href", Some(href))])])
         == [Defrag(join(base, href))]
  {
    var attrs := [Attribute("href", Some(href))];
    var events := [StartTag("a", attrs)];
    assert attrs[..0] == [];
    assert events[..0] == [];
    assert AttrEntries(base, join, attrs) == [Defrag(join(base, href))];
  }

  /** Every `href` of every `a` tag yields an entry in the list. */
  lemma {:induction false} HrefExtracted(base: string, join: (string, string) -> string, events: seq<Event>, i: nat, j: nat)
    requires i < |events| && events[i].StartTag? && events[i].tag == "a"
    requires j < |events[i].attrs| && events[i].attrs[j].name == "href"
    ensures Entry(base, join, events[i].attrs[j]) in ExtractedLinks(base, join, events)
    decreases |events|
  {
    var init := events[..|events| - 1];
    if i < |events| - 1 {
      HrefExtracted(base, join, init, i, j);
    } else {
      AttrEntryIncluded(base, join, events[i].attrs, j);
    }
  }

  lemma {:induction false} AttrEntryIncluded(base: string, join: (string, string) -> string, attrs: seq<Attribute>, j: nat)
    requires j < |attrs| && attrs[j].name == "href"
    ensures Entry(base, join, attrs[j]) in AttrEntries(base, join, attrs)
    decreases |attrs|
  {
    var init := attrs[..|attrs| - 1];
    if j < |attrs| - 1 {
      AttrEntryIncluded(base, join, init, j);
    }
  }

  /** Every entry comes from some `href` of some `a` tag. */
  lemma {:induction false} ExtractedFromHref(base: string, join: (string, string) -> string, events: seq<Event>, u: string)
    requires u in ExtractedLinks(base, join, events)
    ensures exists i, j :: (0 <= i < |events| && events[i].StartTag? && events[i].tag == "a"
      && 0 <= j < |events[i].attrs| && events[i].attrs[j].name == "href"
      && u == Entry(base, join, events[i].attrs[j]))
    decreases |events|
  {
    var init, e := events[..|events| - 1], events[|events| - 1];
    if u in ExtractedLinks(base, join, init) {
      ExtractedFromHref(base, join, init, u);
      var i, j :| 0 <= i < |init| && init[i].StartTag? && init[i].tag == "a"
        && 0 <= j < |init[i].attrs| && init[i].attrs[j].name == "href"
        && u == Entry(base, join, init[i].attrs[j]);
      assert events[i] == init[i];
    } else {
      var j := AttrEntrySource(base, join, e.attrs, u);
      assert events[|events| - 1] == e;
    }
  }

  lemma {:induction false} AttrEntrySource(base: string, join: (string, string) -> string, attrs: seq<Attribute>, u: string)
    returns (j: nat)
    requires u in AttrEntries(base, join, attrs)
    ensures j < |attrs| && attrs[j].name == "href" && u == Entry(base, join, attrs[j])
    decreases |attrs|
  {
    var init := attrs[..|attrs| - 1];
    if u in AttrEntries(base, join, init) {
      j := AttrEntrySource(base, join, init, u);
    } else {
      j := |attrs| - 1;
    }
  }

  /** No extracted entry carries a fragment. */
  lemma NoFragments(base: string, join: (string, string) -> string, events: seq<Event>, u: string)
    requires u in ExtractedLinks(base, join, events)
    ensures '#' !in u
  {
    ExtractedFromHref(base, join, events, u);
  }
}
