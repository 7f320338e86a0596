/**
 The link graph PageRank works on: a dictionary from each page of the
 corpus to the set of pages it links to, and the part of `crawl` that turns
 the links found in each HTML file into such a graph (self-links dropped,
 links restricted to pages of the corpus).
 */
module LinkGraph {
  import opened Sums

  /** A page is named by its file name. */
  type Page = string

  /**
   A corpus dictionary. `links` maps each page to its out-links; `keys`
   lists the dictionary's keys in insertion order, the order in which every
   loop over `corpus.keys()` visits them.
   */
  datatype Corpus = Corpus(keys: seq<Page>, links: map<Page, set<Page>>) {

    /** `keys` enumerates the dictionary's keys, each exactly once. */
    ghost predicate Valid() {
      Distinct(keys) && forall p :: p in links <==> p in keys
    }

    /** A link graph as `crawl` returns it: no self-links, and every out-link is a page of the corpus. */
    ghost predicate WellFormed() {
      Valid() && forall p, q :: p in links && q in links[p] ==> q in links && q != p
    }

    /** The number of pages, `len(corpus.keys())`. */
    function Size(): nat {
      |keys|
    }
  }

  /** The file-name test of the directory scan: only `.html` files are pages. */
  predicate IsHtml(name: Page) {
    |name| >= 5 && name[|name| - 5..] == ".html"
  }

  /** The HTML files of a directory listing, in listing order: the order in which the scan inserts the pages. */
  function HtmlFiles(listing: seq<Page>): seq<Page> {
    if |listing| == 0 then []
    else
      var last := listing[|listing| - 1];
      HtmlFiles(listing[..|listing| - 1]) + if IsHtml(last) then [last] else []
  }

  /** The links of `links` that are pages of the corpus `pages` (the filter of lines 45-48). */
  function InCorpus(links: set<Page>, pages: map<Page, set<Page>>): set<Page> {
    set l | l in links && l in pages
  }

  /**
   The graph-building part of `crawl`. `listing` is the directory listing in
   the order the scan visits it and `found[f]` the set of link targets the
   anchor pattern extracted from file `f`. Every HTML file becomes a page
   whose out-links are its found links minus itself; then, page by page, the
   out-links are restricted to pages of the corpus.
   */
  method Crawl(listing: seq<Page>, found: map<Page, set<Page>>) returns (c: Corpus)
    requires Distinct(listing)
    requires forall f :: f in listing && IsHtml(f) ==> f in found
    ensures c.WellFormed()
    ensures c.keys == HtmlFiles(listing)
    ensures forall f :: f in c.links <==> f in listing && IsHtml(f)
    ensures forall f, l :: f in c.links ==> (l in c.links[f] <==> l in found[f] && l != f && l in c.links)
  {
    var keys, raw := ScanListing(listing, found);
    var pages := RestrictLinks(keys, raw);
    c := Corpus(keys, pages);
  }

  /** Lines 35-41: each HTML file of the listing, in order, becomes a page with its found links minus itself. */
  method ScanListing(listing: seq<Page>, found: map<Page, set<Page>>) returns (keys: seq<Page>, pages: map<Page, set<Page>>)
    requires Distinct(listing)
    requires forall f :: f in listing && IsHtml(f) ==> f in found
    ensures Distinct(keys)
    ensures keys == HtmlFiles(listing)
    ensures forall f :: f in pages <==> f in keys
    ensures forall f :: f in keys <==> f in listing && IsHtml(f)
    ensures forall f :: f in pages ==> pages[f] == found[f] - {f}
  {
    keys := [];
    pages := map[];
    var i := 0;
    while i < |listing|
      invariant 0 <= i <= |listing|
      invariant Distinct(keys)
      invariant keys == HtmlFiles(listing[..i])
      invariant forall f :: f in pages <==> f in keys
      invariant forall f :: f in keys <==> f in listing[..i] && IsHtml(f)
      invariant forall f :: f in pages ==> pages[f] == found[f] - {f}
    {
      var filename := listing[i];
      assert listing[..i + 1] == listing[..i] + [filename];
      assert listing[..i + 1][..i] == listing[..i];
      if IsHtml(filename) {
        assert filename !in keys by {
          forall j | 0 <= j < i ensures listing[j] != filename {}
        }
        pages := pages[filename := found[filename] - {filename}];
        keys := keys + [filename];
      }
      i := i + 1;
    }
    assert listing[..i] == listing;
  }

  /** Lines 44-48: page by page, the out-links are restricted to pages of the corpus. */
  method RestrictLinks(keys: seq<Page>, raw: map<Page, set<Page>>) returns (pages: map<Page, set<Page>>)
    requires Distinct(keys) && forall f :: f in raw <==> f in keys
    ensures pages.Keys == raw.Keys
    ensures forall f :: f in pages ==> pages[f] == InCorpus(raw[f], raw)
  {
    pages := raw;
    var i := 0;
    while i < |keys|
      invariant 0 <= i <= |keys|
      invariant pages.Keys == raw.Keys
      invariant forall j :: 0 <= j < |keys| ==>
        pages[keys[j]] == if j < i then InCorpus(raw[keys[j]], raw) else raw[keys[j]]
    {
      var filename := keys[i];
      pages := pages[filename := set link | link in pages[filename] && link in pages];
      assert pages[filename] == InCorpus(raw[filename], raw);
      i := i + 1;
    }
    forall f | f in pages
      ensures pages[f] == InCorpus(raw[f], raw)
    {
      var j :| 0 <= j < |keys| && keys[j] == f;
    }
  }
}
