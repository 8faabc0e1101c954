/**
 One run of `main`: for every configured site, in order, extract its records,
 diff them against the stored matches of its URL, and collect the new ones;
 then compose the e-mail when anything new was found, and hand back the store
 to be saved.
 */
module Run {

  import opened Wrappers
  import opened Text
  import opened Records
  import opened Keywords
  import opened Extract
  import opened Diff
  import opened Notify

  /** A monitored listing page and the keywords its tenders are filtered on. */
  datatype Site = Site(url: string, keywords: seq<string>)

  /** The configured site list. */
  const Websites: seq<Site> := [
    Site("https://www.berlin.de/vergabeplattform/veroeffentlichungen/bekanntmachungen/?limit=100&start=0&search=",
         ["catering", "verpflegung", "lebensmittel", "kantin", "speise", "hotel", "essen"])
  ]

  /** The state a run carries from site to site: the matches store and the
      run's `new_matches`. */
  datatype Outcome = Outcome(store: Store, newMatches: seq<Record>)

  /** The message `send_email` hands to the mail relay. */
  datatype Email = Email(subject: string, body: string)

  /** The diff of one site applied to the running state. */
  function SiteOutcome(o: Outcome, site: Site, extracted: seq<Record>): Outcome
  {
    Outcome(SiteStore(o.store, site.url, site.keywords, extracted),
            o.newMatches + Fresh(Lookup(o.store, site.url), site.keywords, extracted))
  }

  /** The URLs of the configured sites. */
  function Urls(sites: seq<Site>): (r: set<string>)
    ensures forall i :: 0 <= i < |sites| ==> sites[i].url in r
  {
    if sites == [] then {}
    else
      var n := |sites| - 1;
      assert forall i :: 0 <= i < n ==> sites[..n][i] == sites[i];
      Urls(sites[..n]) + {sites[n].url}
  }

  /** The state after diffing every site against its batch of records, starting
      from the store `prior` and no new matches. */
  function RunSites(prior: Store, sites: seq<Site>, batches: seq<seq<Record>>): Outcome
    requires |batches| == |sites|
  {
    if sites == [] then Outcome(prior, [])
    else
      var n := |sites| - 1;
      SiteOutcome(RunSites(prior, sites[..n], batches[..n]), sites[n], batches[n])
  }

  /** A run ends with a list for every URL the store had and every configured
      URL, and no other; a URL that is not configured keeps its list. */
  lemma {:induction false} RunSitesFrame(prior: Store, sites: seq<Site>, batches: seq<seq<Record>>)
    requires |batches| == |sites|
    ensures RunSites(prior, sites, batches).store.Keys == prior.Keys + Urls(sites)
    ensures forall u :: u in prior && u !in Urls(sites) ==> RunSites(prior, sites, batches).store[u] == prior[u]
  {
    if sites != [] {
      var n := |sites| - 1;
      RunSitesFrame(prior, sites[..n], batches[..n]);
    }
  }

  /** The records each page yields. */
  function Batches(pages: seq<Option<Page>>): (r: seq<seq<Record>>)
    ensures |r| == |pages|
    ensures forall i :: 0 <= i < |pages| ==> r[i] == Extracted(pages[i])
  {
    seq(|pages|, i requires 0 <= i < |pages| => Extracted(pages[i]))
  }

  /** Every list of `before` is still there in `after`, possibly extended at its end. */
  ghost predicate Grows(before: Store, after: Store)
  {
    forall u :: u in before ==> u in after && before[u] <= after[u]
  }

  /** `store` has a list for every site, holding each record of that site's
      batch that passes the site's keywords. */
  ghost predicate Covers(store: Store, sites: seq<Site>, batches: seq<seq<Record>>)
    requires |batches| == |sites|
  {
    forall i :: 0 <= i < |sites| ==> Holds(store, sites[i], batches[i])
  }

  /** `store` has a list for `site`, holding each record of `batch` that passes
      the site's keywords. */
  ghost predicate Holds(store: Store, site: Site, batch: seq<Record>)
  {
    site.url in store
    && forall x :: x in batch && Passes(x, site.keywords) ==> x in store[site.url]
  }

  /** No list of the store holds a record twice. */
  ghost predicate StoreNoDuplicates(store: Store)
  {
    forall u :: u in store ==> NoDuplicates(store[u])
  }

  /** A run only appends: no URL disappears and no list loses or reorders a
      record; the store ends with a list for every configured site. */
  lemma {:induction false} RunGrows(prior: Store, sites: seq<Site>, batches: seq<seq<Record>>)
    requires |batches| == |sites|
    ensures Grows(prior, RunSites(prior, sites, batches).store)
    ensures forall i :: 0 <= i < |sites| ==> sites[i].url in RunSites(prior, sites, batches).store
  {
    if sites != [] {
      var n := |sites| - 1;
      RunGrows(prior, sites[..n], batches[..n]);
      assert forall i :: 0 <= i < n ==> sites[..n][i] == sites[i];
    }
  }

  /** One site's diff only appends to the store. */
  lemma SiteStoreGrows(store: Store, url: string, keywords: seq<string>, extracted: seq<Record>)
    ensures Grows(store, SiteStore(store, url, keywords, extracted))
  {
    var after := SiteStore(store, url, keywords, extracted);
    forall u | u in store ensures u in after && store[u] <= after[u] {
      if u == url {
        assert after[u] == store[u] + Fresh(store[u], keywords, extracted);
      }
    }
  }

  /** What a list holds stays held when the store grows. */
  lemma GrowsKeeps(before: Store, after: Store, site: Site, batch: seq<Record>)
    requires Grows(before, after) && Holds(before, site, batch)
    ensures Holds(after, site, batch)
  {
    assert before[site.url] <= after[site.url];
    forall x | x in batch && Passes(x, site.keywords) ensures x in after[site.url] {
      assert x in before[site.url];
    }
  }

  /** A site's diff leaves its list holding every passing record of its batch. */
  lemma SiteStoreHolds(store: Store, site: Site, batch: seq<Record>)
    ensures Holds(SiteStore(store, site.url, site.keywords, batch), site, batch)
  {
    forall x | x in batch && Passes(x, site.keywords)
      ensures x in Absorb(Lookup(store, site.url), site.keywords, batch)
    {
      AbsorbMembers(Lookup(store, site.url), site.keywords, batch, x);
    }
  }

  /** After a run, the store holds every passing record of every site's batch. */
  lemma {:induction false} RunCovers(prior: Store, sites: seq<Site>, batches: seq<seq<Record>>)
    requires |batches| == |sites|
    ensures Covers(RunSites(prior, sites, batches).store, sites, batches)
  {
    if sites != [] {
      var n := |sites| - 1;
      var site := sites[n];
      var mid := RunSites(prior, sites[..n], batches[..n]).store;
      var last := SiteStore(mid, site.url, site.keywords, batches[n]);
      assert RunSites(prior, sites, batches).store == last;
      RunCovers(prior, sites[..n], batches[..n]);
      SiteStoreGrows(mid, site.url, site.keywords, batches[n]);
      forall i | 0 <= i < n ensures Holds(last, sites[i], batches[i]) {
        assert sites[..n][i] == sites[i] && batches[..n][i] == batches[i];
        GrowsKeeps(mid, last, sites[i], batches[i]);
      }
      SiteStoreHolds(mid, site, batches[n]);
    }
  }

  /** A run over a store that already covers every batch reports nothing and
      leaves the store as it was. */
  lemma {:induction false} RunCovered(store: Store, sites: seq<Site>, batches: seq<seq<Record>>)
    requires |batches| == |sites|
    requires Covers(store, sites, batches)
    ensures RunSites(store, sites, batches) == Outcome(store, [])
  {
    if sites != [] {
      var n := |sites| - 1;
      assert Covers(store, sites[..n], batches[..n]) by {
        forall i | 0 <= i < n
          ensures sites[..n][i] == sites[i] && batches[..n][i] == batches[i]
        {
        }
      }
      RunCovered(store, sites[..n], batches[..n]);
      var site := sites[n];
      AbsorbCovered(store[site.url], site.keywords, batches[n]);
      assert store[site.url := store[site.url]] == store;
    }
  }

  /** Running again with the same extraction output over the saved store finds
      no new matches, so no e-mail is sent, and the saved store is unchanged. */
  lemma RunIdempotent(prior: Store, sites: seq<Site>, batches: seq<seq<Record>>)
    requires |batches| == |sites|
    ensures var saved := RunSites(prior, sites, batches).store;
            RunSites(saved, sites, batches) == Outcome(saved, [])
  {
    RunCovers(prior, sites, batches);
    RunCovered(RunSites(prior, sites, batches).store, sites, batches);
  }

  /** A store whose lists hold no duplicates keeps none after a run. */
  lemma {:induction false} RunNoDuplicates(prior: Store, sites: seq<Site>, batches: seq<seq<Record>>)
    requires |batches| == |sites|
    requires StoreNoDuplicates(prior)
    ensures StoreNoDuplicates(RunSites(prior, sites, batches).store)
  {
    if sites != [] {
      var n := |sites| - 1;
      var mid := RunSites(prior, sites[..n], batches[..n]).store;
      RunNoDuplicates(prior, sites[..n], batches[..n]);
      AbsorbNoDuplicates(Lookup(mid, sites[n].url), sites[n].keywords, batches[n]);
    }
  }

  /** Diffing site `i` after the sites before it. */
  lemma RunSitesStep(prior: Store, sites: seq<Site>, batches: seq<seq<Record>>, i: nat)
    requires |batches| == |sites| && i < |sites|
    ensures RunSites(prior, sites[..i + 1], batches[..i + 1])
            == SiteOutcome(RunSites(prior, sites[..i], batches[..i]), sites[i], batches[i])
  {
    assert sites[..i + 1][..i] == sites[..i];
    assert batches[..i + 1][..i] == batches[..i];
  }

  /** The site loop of `main` (lines 133-150): extract each site's records and
      diff them against the store, in site order. A failed page contributes no
      records. */
  method DiffSites(prior: Store, sites: seq<Site>, pages: seq<Option<Page>>)
    returns (store: Store, newMatches: seq<Record>)
    requires |pages| == |sites|
    ensures Outcome(store, newMatches) == RunSites(prior, sites, Batches(pages))
  {
    ghost var batches := Batches(pages);
    store := prior;
    newMatches := [];
    for i := 0 to |sites|
      invariant Outcome(store, newMatches) == RunSites(prior, sites[..i], batches[..i])
    {
      var extracted := ExtractRecords(pages[i]);
      RunSitesStep(prior, sites, batches, i);
      ghost var before := Outcome(store, newMatches);
      store, newMatches := DiffSite(store, sites[i].url, sites[i].keywords, extracted, newMatches);
      assert Outcome(store, newMatches) == SiteOutcome(before, sites[i], batches[i]);
    }
    assert sites[..|sites|] == sites;
    assert batches[..|sites|] == batches;
  }

  /** Lines 131-157 of `main`: diff every site against the store read at the
      start, compose the e-mail when there are new matches, and return the
      store that is then written back. Whether the mail relay accepts the
      message does not affect the store. */
  method RunPass(prior: Store, sites: seq<Site>, pages: seq<Option<Page>>)
    returns (store: Store, newMatches: seq<Record>, email: Option<Email>)
    requires |pages| == |sites|
    ensures Outcome(store, newMatches) == RunSites(prior, sites, Batches(pages))
    ensures email.Some? <==> newMatches != []
    ensures email.Some? ==> email.value == Email(Subject, Header + Blocks(newMatches))
  {
    store, newMatches := DiffSites(prior, sites, pages);
    if newMatches != [] {
      var body := ComposeBody(newMatches);
      email := Some(Email(Subject, body));
    } else {
      email := None;
    }
  }

  /** `main` as written: the matches file is cleared (line 128) before it is
      read back (line 129), so the pass always starts from the empty store,
      whatever an earlier run saved. */
  method RunAfterClear(saved: Store, sites: seq<Site>, pages: seq<Option<Page>>)
    returns (store: Store, newMatches: seq<Record>, email: Option<Email>)
    requires |pages| == |sites|
    ensures Outcome(store, newMatches) == RunSites(map[], sites, Batches(pages))
    ensures email.Some? <==> newMatches != []
  {
    var loaded: Store := map[];
    store, newMatches, email := RunPass(loaded, sites, pages);
  }

  /** The sample tender: one catering notice. */
  function SampleRecord(): Record
  {
    map["title" := "Catering Ausschreibung", "link" := "https://x/1"]
  }

  lemma SamplePasses()
    ensures Passes(SampleRecord(), ["catering"])
  {
    var lowered := LowerStr("Catering Ausschreibung");
    assert lowered[..8] == "catering";
    assert LowerStr("catering") == "catering";
    assert OccursAt(LowerStr(["catering"][0]), lowered, 0);
    CheckKeywordsSpec("Catering Ausschreibung", ["catering"]);
  }

  /** The sample record also passes the keywords of the configured site. */
  lemma SamplePassesConfigured()
    ensures Passes(SampleRecord(), Websites[0].keywords)
  {
    SamplePasses();
    var rest := ["verpflegung", "lebensmittel", "kantin", "speise", "hotel", "essen"];
    assert Websites[0].keywords == ["catering"] + rest;
    CheckKeywordsMonotone(TitleOf(SampleRecord()), ["catering"], rest);
  }

  /** On the configured site list, from an empty store the sample record is new
      and is stored under the site's URL; a second run over that store with the
      same extraction finds nothing. */
  lemma SampleRuns()
    ensures var batches := [[SampleRecord()]];
            var first := RunSites(map[], Websites, batches);
            && first == Outcome(map[Websites[0].url := [SampleRecord()]], [SampleRecord()])
            && RunSites(first.store, Websites, batches) == Outcome(first.store, [])
  {
    var batches := [[SampleRecord()]];
    var site := Websites[0];
    SamplePassesConfigured();
    assert Websites[..0] == [] && batches[..0] == [];
    var first := RunSites(map[], Websites, batches);
    assert Absorb([], site.keywords, [SampleRecord()]) == [SampleRecord()] by {
      assert [SampleRecord()][..0] == [];
    }
    assert first == Outcome(map[site.url := [SampleRecord()]], [SampleRecord()]);
    RunIdempotent(map[], Websites, batches);
  }

  /** Because the store is cleared before it is read, a run that follows the
      sample run reports the sample record again, although the previous run
      saved it. */
  lemma SampleRepeatsAfterClear()
    ensures var batches := [[SampleRecord()]];
            var saved := RunSites(map[], Websites, batches).store;
            && SampleRecord() in saved[Websites[0].url]
            && RunSites(map[], Websites, batches).newMatches == [SampleRecord()]
  {
    SampleRuns();
  }
}
