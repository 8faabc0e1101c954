/**
 What survives of `extract_titles_and_links_with_selenium` once the browser is
 taken out: the page hands over the text of its title elements and the `href`
 of its link elements, and the script pairs them up, strips each title and
 rebuilds each link from a fixed base and a slice of the `href`.
 */
module Extract {

  import opened Wrappers
  import opened Text
  import opened Records

  /** The base the rebuilt links start with. */
  const LinkBase: string := "https://vergabeportal-bw.de"

  /** Python's normalisation of one slice bound for a string of length `n`:
      a negative bound counts from the end, and the result is clamped to `[0, n]`. */
  function ClampIndex(i: int, n: nat): (r: nat)
    ensures r <= n
    ensures 0 <= i <= n ==> r == i
    ensures i < 0 <= i + n ==> r == i + n
    ensures i + n < 0 ==> r == 0
    ensures n < i ==> r == n
  {
    if i < 0 then (if i + n < 0 then 0 else i + n) else if i > n then n else i
  }

  /** Python's `s[start:stop]`: never fails, empty when the clamped bounds cross. */
  function PySlice(s: string, start: int, stop: int): (r: string)
    ensures var lo, hi := ClampIndex(start, |s|), ClampIndex(stop, |s|);
            && |r| == (if lo < hi then hi - lo else 0)
            && forall k :: 0 <= k < |r| ==> r[k] == s[lo + k]
  {
    var lo, hi := ClampIndex(start, |s|), ClampIndex(stop, |s|);
    if lo < hi then s[lo..hi] else []
  }

  /** `"https://vergabeportal-bw.de" + href[29:-19]`. The result always starts with
      the base; 48 characters of `href` are dropped (29 in front, 19 at the back),
      and an `href` of at most 48 characters contributes nothing. */
  function RebuildLink(href: string): (r: string)
    ensures |r| == 27 + (if |href| > 48 then |href| - 48 else 0)
    ensures |LinkBase| == 27 && r[..27] == LinkBase
    ensures forall k :: 27 <= k < |r| ==> r[k] == href[k + 2]
  {
    LinkBase + PySlice(href, 29, -19)
  }

  /** Rebuilding undoes the fixed framing: whatever sits between a 29-character
      prefix and a 19-character suffix is appended to the base unchanged. */
  lemma RebuildLinkOfFramed(prefix: string, path: string, suffix: string)
    requires |prefix| == 29 && |suffix| == 19
    ensures RebuildLink(prefix + path + suffix) == LinkBase + path
  {
    var href := prefix + path + suffix;
    assert PySlice(href, 29, -19) == href[29..29 + |path|];
    assert href[29..29 + |path|] == path;
  }

  /** What the browser hands over for one page: the text of every title element
      and the `href` attribute of every link element (`None` where the element
      has no such attribute). */
  datatype Page = Page(titleTexts: seq<string>, hrefs: seq<Option<string>>)

  /** One `zip` pair turned into a record; an `href` that is missing makes the
      slice raise, and the item is skipped. */
  function ItemRecord(text: string, href: Option<string>): (r: Option<Record>)
    ensures r.None? <==> href.None?
    ensures r.Some? ==> && r.value.Keys == {"title", "link"}
                        && r.value["title"] == Strip(text)
                        && r.value["link"] == RebuildLink(href.value)
                        && LinkBase <= r.value["link"]
  {
    match href
    case None => None
    case Some(h) => Some(ToDict(Strip(text), RebuildLink(h)))
  }

  /** `zip` stops at the shorter of the two element lists. */
  function ZipLength(page: Page): (n: nat)
    ensures n <= |page.titleTexts| && n <= |page.hrefs|
    ensures n == |page.titleTexts| || n == |page.hrefs|
  {
    if |page.titleTexts| < |page.hrefs| then |page.titleTexts| else |page.hrefs|
  }

  /** The outcome of every `zip` pair, in page order. */
  function Items(page: Page): (r: seq<Option<Record>>)
    ensures |r| == ZipLength(page)
  {
    seq(ZipLength(page), k requires 0 <= k < ZipLength(page) => ItemRecord(page.titleTexts[k], page.hrefs[k]))
  }

  /** The records one site yields: none when the page failed to load or its
      elements never appeared (`None`), otherwise one per pair whose link could
      be rebuilt. Each holds exactly a title and a link, and the link starts
      with the base. */
  function Extracted(page: Option<Page>): (r: seq<Record>)
    ensures page.None? ==> r == []
    ensures forall d :: d in r ==> d.Keys == {"title", "link"} && LinkBase <= d["link"]
  {
    match page
    case None => []
    case Some(p) => Somes(Items(p))
  }

  /** When every link element carries an `href`, item `k` of the result is the
      record of title `k` and link `k`: pairing is positional and nothing is lost
      below the shorter list's length. */
  lemma ExtractedComplete(page: Page)
    requires forall k :: 0 <= k < ZipLength(page) ==> page.hrefs[k].Some?
    ensures |Extracted(Some(page))| == ZipLength(page)
    ensures forall k :: 0 <= k < ZipLength(page) ==>
              Extracted(Some(page))[k] == ToDict(Strip(page.titleTexts[k]), RebuildLink(page.hrefs[k].value))
  {
    var items := Items(page);
    assert forall k :: 0 <= k < |items| ==> items[k].Some? by {
      forall k | 0 <= k < |items| ensures items[k].Some? {
        assert items[k] == ItemRecord(page.titleTexts[k], page.hrefs[k]);
      }
    }
    SomesAllPresent(items);
    forall k | 0 <= k < ZipLength(page)
      ensures Extracted(Some(page))[k] == ToDict(Strip(page.titleTexts[k]), RebuildLink(page.hrefs[k].value))
    {
      assert items[k] == ItemRecord(page.titleTexts[k], page.hrefs[k]);
    }
  }

  /** A pair whose link element carries an `href` is never lost, whatever
      happens to the other pairs of the page. */
  lemma ExtractedKeepsPresent(page: Page, k: nat)
    requires k < ZipLength(page) && page.hrefs[k].Some?
    ensures ToDict(Strip(page.titleTexts[k]), RebuildLink(page.hrefs[k].value)) in Extracted(Some(page))
  {
    var items := Items(page);
    assert items[k] == ItemRecord(page.titleTexts[k], page.hrefs[k]);
    SomesKeeps(items, ToDict(Strip(page.titleTexts[k]), RebuildLink(page.hrefs[k].value)));
  }

  /** The loop of lines 91-98: walk the `zip` of the two element lists, append
      one record per pair, skip a pair whose link cannot be rebuilt. */
  method ExtractRecords(page: Option<Page>) returns (extracted: seq<Record>)
    ensures extracted == Extracted(page)
  {
    extracted := [];
    if page.None? {
      return;
    }
    var p := page.value;
    var items := Items(p);
    var i := 0;
    while i < |items|
      invariant i <= |items|
      invariant extracted == Somes(items[..i])
    {
      assert items[..i + 1][..i] == items[..i];
      var item := ItemRecord(p.titleTexts[i], p.hrefs[i]);
      if item.Some? {
        extracted := extracted + [item.value];
      }
      i := i + 1;
    }
    assert items[..i] == items;
  }
}
