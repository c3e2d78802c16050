/**
 * Link extraction from a directory listing page: a naive substring scan,
 * not an HTML parser. A page is cut at every `</a>`; from each fragment the
 * text between the first two double quotes found from the first `href` is
 * taken; empty results are dropped.
 */
module Links {
  import opened Wrappers
  import opened PyStr

  /** `get_href_from_link_element`: the quoted value after the first `href` of one fragment. */
  function GetHref(raw: string): (link: string)
    ensures link == "" || OccursAt(raw, link, Find(raw, "\"", Find(raw, "href", 0)) + 1)
  {
    var href := Find(raw, "href", 0);
    var start := Find(raw, "\"", href);
    var end := Find(raw, "\"", start + 1);
    if start == -1 then "" else Slice(raw, start + 1, end)
  }

  /** The href of every fragment, in fragment order (Python's `map`). */
  function Hrefs(fragments: seq<string>): (hs: seq<string>)
    ensures |hs| == |fragments|
  {
    seq(|fragments|, i requires 0 <= i < |fragments| => GetHref(fragments[i]))
  }

  /** Python's `filter(lambda x: x != "", xs)`. */
  function NonEmpty(xs: seq<string>): (ys: seq<string>)
    ensures |ys| <= |xs|
    ensures forall k :: 0 <= k < |ys| ==> ys[k] != ""
    ensures forall y :: y in ys ==> y in xs
  {
    if xs == [] then []
    else (if xs[0] == "" then [] else [xs[0]]) + NonEmpty(xs[1..])
  }

  /**
   * `get_all_links_in_html_form`: no page gives no links; otherwise at most
   * one non-empty link per `</a>`-separated fragment.
   */
  function ExtractLinks(html: Option<string>): (links: seq<string>)
    ensures html.None? ==> links == []
    ensures forall k :: 0 <= k < |links| ==> links[k] != ""
    ensures html.Some? ==> |links| <= |Split(html.value, "</a>")|
  {
    match html
    case None => []
    case Some(page) => NonEmpty(Hrefs(Split(page, "</a>")))
  }

  // ---------------------------------------------------------------------
  // The href scan of one fragment
  // ---------------------------------------------------------------------

  /** `h` is where `href` first occurs in `raw`. */
  predicate FirstHrefAt(raw: string, h: int) {
    OccursAt(raw, "href", h) && forall j :: 0 <= j < h ==> !OccursAt(raw, "href", j)
  }

  /** No double quote among `raw[lo..hi]`. */
  predicate QuoteFree(raw: string, lo: int, hi: int) {
    forall j :: lo <= j < hi && 0 <= j < |raw| ==> raw[j] != '"'
  }

  /** Searching for a quote from `i` finds the one at `q` when none stands in between. */
  lemma FindQuote(raw: string, i: nat, q: nat)
    requires i <= q < |raw| && raw[q] == '"' && QuoteFree(raw, i, q)
    ensures Find(raw, "\"", i) == q
  {
    OccursAtChar(raw, '"', q);
    forall j | i <= j < q
      ensures !OccursAt(raw, "\"", j)
    {
      OccursAtChar(raw, '"', j);
    }
    FindFromIs(raw, "\"", i, q);
  }

  /** Searching for a quote from `i` fails when none stands at or after `i`. */
  lemma FindNoQuote(raw: string, i: nat)
    requires QuoteFree(raw, i, |raw|)
    ensures Find(raw, "\"", i) == -1
  {
    forall j | i <= j
      ensures !OccursAt(raw, "\"", j)
    {
      OccursAtChar(raw, '"', j);
    }
  }

  /** The search for `href` lands on its first occurrence. */
  lemma FindHref(raw: string, h: nat)
    requires FirstHrefAt(raw, h)
    ensures Find(raw, "href", 0) == h
  {
    FindFromIs(raw, "href", 0, h);
  }

  /** `get_href_from_link_element` once its three searches are known. */
  lemma GetHrefOf(raw: string, href: int, start: int, end: int)
    requires Find(raw, "href", 0) == href
    requires Find(raw, "\"", href) == start
    requires Find(raw, "\"", start + 1) == end
    ensures GetHref(raw) == if start == -1 then "" else Slice(raw, start + 1, end)
  {
  }

  /** The three searches of `get_href_from_link_element` land on `h`, `q` and `e`. */
  lemma HrefSlice(raw: string, h: nat, q: nat, e: nat)
    requires FirstHrefAt(raw, h)
    requires h <= q < e < |raw| && raw[q] == '"' && raw[e] == '"'
    requires QuoteFree(raw, h, q) && QuoteFree(raw, q + 1, e)
    ensures GetHref(raw) == raw[q + 1..e]
  {
    FindHref(raw, h);
    FindQuote(raw, h, q);
    FindQuote(raw, q + 1, e);
    GetHrefOf(raw, h, q, e);
  }

  /** With an opening and a closing quote after `href`, the link is exactly the text between them. */
  lemma HrefBetweenQuotes(raw: string, h: nat, q: nat, e: nat)
    requires FirstHrefAt(raw, h)
    requires h <= q < e < |raw| && raw[q] == '"' && raw[e] == '"'
    requires QuoteFree(raw, h, q) && QuoteFree(raw, q + 1, e)
    ensures GetHref(raw) == raw[q + 1..e]
    ensures forall k :: 0 <= k < |GetHref(raw)| ==> GetHref(raw)[k] != '"'
  {
    HrefSlice(raw, h, q, e);
    var link := raw[q + 1..e];
    forall k | 0 <= k < |link|
      ensures link[k] != '"'
    {
      assert link[k] == raw[q + 1 + k];
    }
  }

  /**
   * With an opening quote but no closing one, `end` is -1 and the slice runs
   * to one character before the end of the fragment.
   */
  lemma HrefUnclosed(raw: string, h: nat, q: nat)
    requires FirstHrefAt(raw, h)
    requires h <= q < |raw| && raw[q] == '"'
    requires QuoteFree(raw, h, q) && QuoteFree(raw, q + 1, |raw|)
    ensures GetHref(raw) == if q + 1 < |raw| - 1 then raw[q + 1..|raw| - 1] else ""
  {
    FindHref(raw, h);
    FindQuote(raw, h, q);
    FindNoQuote(raw, q + 1);
    GetHrefOf(raw, h, q, -1);
  }

  /** No quote at or after the first `href`: the fragment yields "". */
  lemma HrefWithoutQuote(raw: string, h: nat)
    requires FirstHrefAt(raw, h) && QuoteFree(raw, h, |raw|)
    ensures GetHref(raw) == ""
  {
    FindFromIs(raw, "href", 0, h);
    FindNoQuote(raw, h);
  }

  /**
   * Whatever the fragment, its link holds no double quote: it stops before the
   * closing quote, or one character short of the end when there is none.
   */
  lemma HrefHasNoQuote(raw: string)
    ensures forall k :: 0 <= k < |GetHref(raw)| ==> GetHref(raw)[k] != '"'
  {
    forall k | 0 <= k < |GetHref(raw)|
      ensures GetHref(raw)[k] != '"'
    {
      HrefCharNotQuote(raw, k);
    }
  }

  /** Character `k` of a link lies after the opening quote and before any closing one. */
  lemma HrefCharNotQuote(raw: string, k: nat)
    requires k < |GetHref(raw)|
    ensures GetHref(raw)[k] != '"'
  {
    var href := Find(raw, "href", 0);
    var start := Find(raw, "\"", href);
    var end := Find(raw, "\"", start + 1);
    GetHrefOf(raw, href, start, end);
    if start != -1 {
      assert FindStart(|raw|, start + 1) == start + 1;
      assert GetHref(raw) == Slice(raw, start + 1, end);
      SliceQuoteFree(raw, start + 1, end, k);
    } else {
      assert false;
    }
  }

  /** A slice from `lo` up to the next quote, or up to the last character without one, holds no quote. */
  lemma SliceQuoteFree(raw: string, lo: nat, end: int, k: nat)
    requires lo <= |raw| && end == FindFrom(raw, "\"", lo)
    requires k < |Slice(raw, lo, end)|
    ensures Slice(raw, lo, end)[k] != '"'
  {
    SliceAt(raw, lo, end, k);
    OccursAtChar(raw, '"', lo + k);
  }

  /**
   * No `href` at all: `find` returns -1, the quote search then looks only at
   * the last character, and either way the fragment yields "".
   */
  lemma NoHrefNoLink(raw: string)
    requires !Contains(raw, "href")
    ensures GetHref(raw) == ""
  {
    forall j | 0 <= j
      ensures !OccursAt(raw, "href", j)
    {
      if j <= |raw| {
        assert !OccursAt(raw, "href", j);
      }
    }
    assert Find(raw, "href", 0) == -1;
    var start := Find(raw, "\"", -1);
    if start != -1 {
      assert start == |raw| - 1;
      FindNoQuote(raw, |raw|);
    }
  }

  // ---------------------------------------------------------------------
  // Filtering keeps document order
  // ---------------------------------------------------------------------

  /** Filtering distributes over concatenation: earlier fragments' links come first. */
  lemma {:induction false} NonEmptyConcat(a: seq<string>, b: seq<string>)
    ensures NonEmpty(a + b) == NonEmpty(a) + NonEmpty(b)
  {
    if a != [] {
      assert (a + b)[1..] == a[1..] + b;
      NonEmptyConcat(a[1..], b);
    } else {
      assert a + b == b;
    }
  }

  /** Filtering keeps a sequence with no empty element unchanged. */
  lemma {:induction false} NonEmptyKeepsAll(xs: seq<string>)
    requires forall k :: 0 <= k < |xs| ==> xs[k] != ""
    ensures NonEmpty(xs) == xs
  {
    if xs != [] {
      NonEmptyKeepsAll(xs[1..]);
    }
  }

  /** A kept element lands at the index given by the number of kept elements before it. */
  lemma NonEmptyAt(xs: seq<string>, i: nat)
    requires i < |xs| && xs[i] != ""
    ensures |NonEmpty(xs[..i])| < |NonEmpty(xs)|
    ensures NonEmpty(xs)[|NonEmpty(xs[..i])|] == xs[i]
  {
    assert xs == xs[..i] + ([xs[i]] + xs[i + 1..]);
    NonEmptyConcat(xs[..i], [xs[i]] + xs[i + 1..]);
    NonEmptyConcat([xs[i]], xs[i + 1..]);
    assert NonEmpty([xs[i]]) == [xs[i]];
  }

  /** Two kept elements keep their relative order. */
  lemma NonEmptyOrder(xs: seq<string>, i: nat, j: nat)
    requires i < j < |xs| && xs[i] != "" && xs[j] != ""
    ensures |NonEmpty(xs[..i])| < |NonEmpty(xs[..j])| < |NonEmpty(xs)|
    ensures NonEmpty(xs)[|NonEmpty(xs[..i])|] == xs[i]
    ensures NonEmpty(xs)[|NonEmpty(xs[..j])|] == xs[j]
  {
    NonEmptyAt(xs, i);
    NonEmptyAt(xs, j);
    assert xs[..j] == xs[..i] + ([xs[i]] + xs[i + 1..j]);
    NonEmptyConcat(xs[..i], [xs[i]] + xs[i + 1..j]);
    NonEmptyConcat([xs[i]], xs[i + 1..j]);
    assert NonEmpty([xs[i]]) == [xs[i]];
  }

  /** Mapping commutes with taking a prefix. */
  lemma HrefsPrefix(fs: seq<string>, i: nat)
    requires i <= |fs|
    ensures Hrefs(fs[..i]) == Hrefs(fs)[..i]
  {
  }

  /** Where the href of fragment `i` lands among the page's links. */
  function Rank(fragments: seq<string>, i: nat): nat
    requires i <= |fragments|
  {
    |NonEmpty(Hrefs(fragments[..i]))|
  }

  /**
   * The links appear in the order of their fragments: the non-empty href of
   * fragment `i` is link number `Rank(i)`, and ranks grow with `i`.
   */
  lemma LinksInFragmentOrder(page: string, i: nat, j: nat)
    requires i < j < |Split(page, "</a>")|
    requires GetHref(Split(page, "</a>")[i]) != "" && GetHref(Split(page, "</a>")[j]) != ""
    ensures var fs, links := Split(page, "</a>"), ExtractLinks(Some(page));
      Rank(fs, i) < Rank(fs, j) < |links|
      && links[Rank(fs, i)] == GetHref(fs[i])
      && links[Rank(fs, j)] == GetHref(fs[j])
  {
    var fs := Split(page, "</a>");
    var hs := Hrefs(fs);
    assert ExtractLinks(Some(page)) == NonEmpty(hs);
    HrefsPrefix(fs, i);
    HrefsPrefix(fs, j);
    NonEmptyOrder(hs, i, j);
  }

  // ---------------------------------------------------------------------
  // A well-formed listing gives back exactly its hrefs
  // ---------------------------------------------------------------------

  /** An href a listing can carry back intact: non-empty, no quote, no `<`. */
  predicate PlainHref(h: string) {
    h != "" && forall k :: 0 <= k < |h| ==> h[k] != '"' && h[k] != '<'
  }

  /** One listing fragment before its `</a>`: an anchor opening tag and its text. */
  function AnchorBody(h: string): string {
    "<a href=\"" + h + "\">" + h
  }

  /** A listing page: one anchor per href, in order, each closed by `</a>`. */
  function Listing(hrefs: seq<string>): string {
    if hrefs == [] then "" else AnchorBody(hrefs[0]) + "</a>" + Listing(hrefs[1..])
  }

  /** The layout of an anchor body, character by character. */
  lemma AnchorBodyLayout(h: string)
    ensures var body, n := AnchorBody(h), |h|;
      |body| == 11 + 2 * n
      && body[0] == '<' && body[1] == 'a' && body[2] == ' '
      && body[3..7] == "href" && body[7] == '=' && body[8] == '"'
      && body[9..9 + n] == h && body[9 + n] == '"' && body[10 + n] == '>'
      && body[11 + n..] == h
  {
  }

  /** A mismatch at position `k` of the pattern rules out an occurrence at `j`. */
  lemma NotOccursAt(s: string, sub: string, j: nat, k: nat)
    requires k < |sub| && j + k < |s| && s[j + k] != sub[k]
    ensures !OccursAt(s, sub, j)
  {
    if j + |sub| <= |s| {
      assert s[j..j + |sub|][k] == s[j + k];
    }
  }

  /** The first `href` of an anchor body is the attribute name at position 3. */
  lemma AnchorBodyFirstHref(h: string)
    ensures FirstHrefAt(AnchorBody(h), 3)
  {
    var raw := AnchorBody(h);
    AnchorBodyLayout(h);
    NotOccursAt(raw, "href", 0, 0);
    NotOccursAt(raw, "href", 1, 0);
    NotOccursAt(raw, "href", 2, 0);
  }

  /** In an anchor body of a plain href, the only quotes are the two around the attribute value. */
  lemma AnchorBodyQuotes(h: string)
    requires PlainHref(h)
    ensures var raw, n := AnchorBody(h), |h|;
      QuoteFree(raw, 3, 8) && QuoteFree(raw, 9, 9 + n)
  {
    var raw, n := AnchorBody(h), |h|;
    AnchorBodyLayout(h);
    forall j | 3 <= j < 7
      ensures raw[j] != '"'
    {
      assert raw[j] == raw[3..7][j - 3];
    }
    forall j | 9 <= j < 9 + n
      ensures raw[j] != '"'
    {
      assert raw[j] == raw[9..9 + n][j - 9] == h[j - 9];
    }
  }

  lemma AnchorBodyHref(h: string)
    requires PlainHref(h)
    ensures GetHref(AnchorBody(h)) == h
  {
    var raw := AnchorBody(h);
    AnchorBodyLayout(h);
    AnchorBodyFirstHref(h);
    AnchorBodyQuotes(h);
    HrefBetweenQuotes(raw, 3, 8, 9 + |h|);
  }

  /** No `</a>` starts inside an anchor body of a plain href. */
  lemma NoCloseInBody(h: string, s: string, j: nat)
    requires PlainHref(h)
    requires |AnchorBody(h)| <= |s| && s[..|AnchorBody(h)|] == AnchorBody(h)
    requires j < |AnchorBody(h)|
    ensures !OccursAt(s, "</a>", j)
  {
    var body := AnchorBody(h);
    var n := |h|;
    AnchorBodyLayout(h);
    assert s[j] == s[..|body|][j] == body[j];
    if j == 0 {
      assert s[1] == s[..|body|][1] == body[1];
      NotOccursAt(s, "</a>", 0, 1);
    } else if j < 3 || j == 7 || j == 8 || j == 9 + n || j == 10 + n {
      NotOccursAt(s, "</a>", j, 0);
    } else if j < 7 {
      assert body[j] == body[3..7][j - 3];
      NotOccursAt(s, "</a>", j, 0);
    } else if j < 9 + n {
      assert body[j] == body[9..9 + n][j - 9] == h[j - 9];
      NotOccursAt(s, "</a>", j, 0);
    } else {
      assert body[j] == body[11 + n..][j - 11 - n] == h[j - 11 - n];
      NotOccursAt(s, "</a>", j, 0);
    }
  }

  lemma SplitAnchor(h: string, rest: string)
    requires PlainHref(h)
    ensures Split(AnchorBody(h) + "</a>" + rest, "</a>") == [AnchorBody(h)] + Split(rest, "</a>")
  {
    var body := AnchorBody(h);
    var s := body + "</a>" + rest;
    var m := |body|;
    assert s[..m] == body;
    assert OccursAt(s, "</a>", m) by { assert s[m..m + 4] == "</a>"; }
    forall j | 0 <= j < m
      ensures !OccursAt(s, "</a>", j)
    {
      NoCloseInBody(h, s, j);
    }
    FindFromIs(s, "</a>", 0, m);
    SplitAt(s, "</a>", m);
    assert s[m + 4..] == rest;
  }

  /** The anchor body of each href, in order. */
  function Bodies(hrefs: seq<string>): (bodies: seq<string>)
    ensures |bodies| == |hrefs|
  {
    if hrefs == [] then [] else [AnchorBody(hrefs[0])] + Bodies(hrefs[1..])
  }

  lemma {:induction false} BodiesAt(hrefs: seq<string>, i: nat)
    requires i < |hrefs|
    ensures Bodies(hrefs)[i] == AnchorBody(hrefs[i])
  {
    if i > 0 {
      BodiesAt(hrefs[1..], i - 1);
    }
  }

  /** The empty listing is one empty fragment. */
  lemma SplitEmptyListing()
    ensures Split(Listing([]), "</a>") == [""]
  {
    assert FindFrom("", "</a>", 0) == -1;
  }

  /** One more anchor in front of a listing adds its body in front of the fragments. */
  lemma SplitListingCons(hrefs: seq<string>)
    requires hrefs != [] && PlainHref(hrefs[0])
    requires Split(Listing(hrefs[1..]), "</a>") == Bodies(hrefs[1..]) + [""]
    ensures Split(Listing(hrefs), "</a>") == Bodies(hrefs) + [""]
  {
    var tail := hrefs[1..];
    SplitAnchor(hrefs[0], Listing(tail));
    assert Listing(hrefs) == AnchorBody(hrefs[0]) + "</a>" + Listing(tail);
    assert Bodies(hrefs) == [AnchorBody(hrefs[0])] + Bodies(tail);
    ConsSnoc(AnchorBody(hrefs[0]), Bodies(tail), "");
  }

  lemma ConsSnoc(x: string, xs: seq<string>, y: string)
    ensures [x] + (xs + [y]) == ([x] + xs) + [y]
  {
  }

  /** The `</a>`-fragments of a listing: each anchor's body, then the empty tail. */
  lemma {:induction false} SplitListing(hrefs: seq<string>)
    requires forall k :: 0 <= k < |hrefs| ==> PlainHref(hrefs[k])
    ensures Split(Listing(hrefs), "</a>") == Bodies(hrefs) + [""]
  {
    if hrefs == [] {
      SplitEmptyListing();
    } else {
      SplitListing(hrefs[1..]);
      SplitListingCons(hrefs);
    }
  }

  /** Fragments that are anchor bodies of plain hrefs, then an empty tail, give back those hrefs. */
  lemma HrefsOfBodies(fs: seq<string>, hrefs: seq<string>)
    requires forall k :: 0 <= k < |hrefs| ==> PlainHref(hrefs[k])
    requires |fs| == |hrefs| + 1 && fs[|hrefs|] == ""
    requires forall k :: 0 <= k < |hrefs| ==> fs[k] == AnchorBody(hrefs[k])
    ensures Hrefs(fs) == hrefs + [""]
  {
    var hs := Hrefs(fs);
    forall i | 0 <= i < |hrefs|
      ensures hs[i] == hrefs[i]
    {
      AnchorBodyHref(hrefs[i]);
    }
    NoHrefNoLink("");
    assert hs[|hrefs|] == "";
  }

  /** The hrefs of a listing's fragments: the listed ones, then "" from the empty tail. */
  lemma HrefsOfListing(hrefs: seq<string>)
    requires forall k :: 0 <= k < |hrefs| ==> PlainHref(hrefs[k])
    ensures Hrefs(Split(Listing(hrefs), "</a>")) == hrefs + [""]
  {
    SplitListing(hrefs);
    var fs := Split(Listing(hrefs), "</a>");
    forall i | 0 <= i < |hrefs|
      ensures fs[i] == AnchorBody(hrefs[i])
    {
      BodiesAt(hrefs, i);
    }
    HrefsOfBodies(fs, hrefs);
  }

  /** Extracting the links of a listing built from plain hrefs gives back those hrefs, in order. */
  lemma ListingRoundTrip(hrefs: seq<string>)
    requires forall k :: 0 <= k < |hrefs| ==> PlainHref(hrefs[k])
    ensures ExtractLinks(Some(Listing(hrefs))) == hrefs
  {
    HrefsOfListing(hrefs);
    NonEmptyConcat(hrefs, [""]);
    NonEmptyKeepsAll(hrefs);
  }
}
