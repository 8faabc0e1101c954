/**
 The diff step of `main`: the records a site yields are checked against the
 keyword filter and against the list of records already stored for that
 site's URL; a record that passes and is not yet stored is reported as new and
 appended to the stored list at once, so that it is not reported again.
 */
module Diff {

  import opened Records
  import opened Keywords

  /** The matches file: site URL to the records stored for it, in the order they
      were first found. */
  type Store = map<string, seq<Record>>

  /** `previous_matches[url]`, an absent URL being read as the `[]` it is given. */
  function Lookup(store: Store, url: string): seq<Record>
  {
    if url in store then store[url] else []
  }

  /** `data.get("title", "")`: a record without a title is filtered on the empty string. */
  function TitleOf(d: Record): (r: string)
    ensures "title" in d ==> r == d["title"]
    ensures "title" !in d ==> r == ""
  {
    Get(d, "title", "")
  }

  /** The record's title passes `check_keywords`; nothing but the title is searched. */
  predicate Passes(d: Record, keywords: seq<string>)
  {
    CheckKeywords(TitleOf(d), keywords)
  }

  /** Only the title is searched: records with the same title pass or fail
      alike, whatever their link or other keys. */
  lemma PassesOnlyTitle(a: Record, b: Record, keywords: seq<string>)
    requires Get(a, "title", "") == Get(b, "title", "")
    ensures Passes(a, keywords) == Passes(b, keywords)
  {
  }

  predicate NoDuplicates<T(==)>(s: seq<T>)
  {
    forall i, j :: 0 <= i < j < |s| ==> s[i] != s[j]
  }

  /** One turn of the loop: the record is appended when it passes and is not yet
      in the list. */
  function Step(history: seq<Record>, keywords: seq<string>, d: Record): (r: seq<Record>)
    ensures r == history || r == history + [d]
    ensures r != history <==> Passes(d, keywords) && d !in history
  {
    if Passes(d, keywords) && d !in history then history + [d] else history
  }

  /** The URL's list after the loop has examined every record of `extracted`:
      the old list followed by what was appended, the old list kept as it was. */
  function Absorb(history: seq<Record>, keywords: seq<string>, extracted: seq<Record>): (r: seq<Record>)
    ensures history <= r
    ensures |r| <= |history| + |extracted|
  {
    if extracted == [] then history
    else Step(Absorb(history, keywords, extracted[..|extracted| - 1]), keywords, extracted[|extracted| - 1])
  }

  /** The records the loop reports as new, in the order it reports them. */
  function Fresh(history: seq<Record>, keywords: seq<string>, extracted: seq<Record>): (r: seq<Record>)
    ensures Absorb(history, keywords, extracted) == history + r
    ensures |r| <= |extracted|
  {
    Absorb(history, keywords, extracted)[|history|..]
  }

  /** Reference description of the new records, without the running list: the
      records of the batch that pass the filter, were not stored before the
      batch, and do not occur earlier in the batch, in batch order. */
  function Kept(history: seq<Record>, keywords: seq<string>, extracted: seq<Record>): seq<Record>
  {
    if extracted == [] then []
    else
      var n := |extracted| - 1;
      var d := extracted[n];
      Kept(history, keywords, extracted[..n])
        + (if Passes(d, keywords) && d !in history && d !in extracted[..n] then [d] else [])
  }

  /** Examining record `i` of the batch: it is appended, and reported, when it
      passes and the list built from the records before it does not hold it. */
  lemma AbsorbPrefixStep(history: seq<Record>, keywords: seq<string>, extracted: seq<Record>, i: nat)
    requires i < |extracted|
    ensures var before := Absorb(history, keywords, extracted[..i]);
            var d := extracted[i];
            && Absorb(history, keywords, extracted[..i + 1]) == Step(before, keywords, d)
            && Fresh(history, keywords, extracted[..i + 1])
               == Fresh(history, keywords, extracted[..i])
                  + (if Passes(d, keywords) && d !in before then [d] else [])
  {
    assert extracted[..i + 1][..i] == extracted[..i];
  }

  /** After the loop the list holds exactly the old records and the batch's
      records that pass the filter. */
  lemma {:induction false} AbsorbMembers(history: seq<Record>, keywords: seq<string>, extracted: seq<Record>, x: Record)
    ensures x in Absorb(history, keywords, extracted)
            <==> x in history || (x in extracted && Passes(x, keywords))
  {
    if extracted != [] {
      var n := |extracted| - 1;
      AbsorbMembers(history, keywords, extracted[..n], x);
      assert extracted == extracted[..n] + [extracted[n]];
    }
  }

  /** A list without duplicates keeps none after the loop. */
  lemma {:induction false} AbsorbNoDuplicates(history: seq<Record>, keywords: seq<string>, extracted: seq<Record>)
    requires NoDuplicates(history)
    ensures NoDuplicates(Absorb(history, keywords, extracted))
  {
    if extracted != [] {
      AbsorbNoDuplicates(history, keywords, extracted[..|extracted| - 1]);
    }
  }

  /** One more record of the batch is reported when it passes and the list
      does not hold it yet. */
  lemma FreshLast(history: seq<Record>, keywords: seq<string>, extracted: seq<Record>)
    requires extracted != []
    ensures var n := |extracted| - 1;
            var d := extracted[n];
            Fresh(history, keywords, extracted)
            == Fresh(history, keywords, extracted[..n])
               + (if Passes(d, keywords) && d !in Absorb(history, keywords, extracted[..n]) then [d] else [])
  {
  }

  /** Every reported record passes the filter, comes from the batch and was not
      stored before; none is reported twice, even when the batch repeats it. */
  lemma {:induction false} FreshSound(history: seq<Record>, keywords: seq<string>, extracted: seq<Record>)
    ensures NoDuplicates(Fresh(history, keywords, extracted))
    ensures forall x :: x in Fresh(history, keywords, extracted) ==>
              Passes(x, keywords) && x in extracted && x !in history
  {
    if extracted != [] {
      var n := |extracted| - 1;
      var d := extracted[n];
      var before := Absorb(history, keywords, extracted[..n]);
      var earlier := Fresh(history, keywords, extracted[..n]);
      FreshSound(history, keywords, extracted[..n]);
      FreshLast(history, keywords, extracted);
      assert forall x :: x in extracted[..n] ==> x in extracted;
      if Passes(d, keywords) && d !in before {
        assert before == history + earlier;
        AbsorbMembers(history, keywords, extracted[..n], d);
        assert d !in earlier;
      }
    }
  }

  /** The running list decides the same as the reference description: a record
      is new exactly when it passes, was not stored before the batch and is the
      first of its kind in the batch. */
  lemma {:induction false} FreshIsKept(history: seq<Record>, keywords: seq<string>, extracted: seq<Record>)
    ensures Fresh(history, keywords, extracted) == Kept(history, keywords, extracted)
  {
    if extracted != [] {
      var n := |extracted| - 1;
      var d := extracted[n];
      var before := Absorb(history, keywords, extracted[..n]);
      FreshIsKept(history, keywords, extracted[..n]);
      FreshLast(history, keywords, extracted);
      AbsorbMembers(history, keywords, extracted[..n], d);
      assert (Passes(d, keywords) && d !in before)
             == (Passes(d, keywords) && d !in history && d !in extracted[..n]);
    }
  }

  /** A passing record of the batch that was not stored before is reported
      exactly once. */
  lemma ReportedOnce(history: seq<Record>, keywords: seq<string>, extracted: seq<Record>, x: Record)
    requires x in extracted && Passes(x, keywords) && x !in history
    ensures multiset(Fresh(history, keywords, extracted))[x] == 1
  {
    var r := Absorb(history, keywords, extracted);
    var found := Fresh(history, keywords, extracted);
    AbsorbMembers(history, keywords, extracted, x);
    assert r == history + found;
    assert x in found;
    FreshSound(history, keywords, extracted);
    CountOfDistinct(found, x);
  }

  /** In a sequence without duplicates every element occurs once. */
  lemma {:induction false} CountOfDistinct<T>(s: seq<T>, x: T)
    requires NoDuplicates(s) && x in s
    ensures multiset(s)[x] == 1
  {
    var n := |s| - 1;
    assert s == s[..n] + [s[n]];
    if x == s[n] {
      assert x !in s[..n];
    } else {
      CountOfDistinct(s[..n], x);
    }
  }

  /** A batch whose passing records are all stored already changes nothing. */
  lemma {:induction false} AbsorbCovered(history: seq<Record>, keywords: seq<string>, extracted: seq<Record>)
    requires forall x :: x in extracted && Passes(x, keywords) ==> x in history
    ensures Absorb(history, keywords, extracted) == history
  {
    if extracted != [] {
      var n := |extracted| - 1;
      assert forall x :: x in extracted[..n] ==> x in extracted;
      AbsorbCovered(history, keywords, extracted[..n]);
    }
  }

  /** Running the loop a second time over the same batch reports nothing and
      leaves the list as the first run left it. */
  lemma AbsorbIdempotent(history: seq<Record>, keywords: seq<string>, extracted: seq<Record>)
    ensures Absorb(Absorb(history, keywords, extracted), keywords, extracted)
            == Absorb(history, keywords, extracted)
    ensures Fresh(Absorb(history, keywords, extracted), keywords, extracted) == []
  {
    var once := Absorb(history, keywords, extracted);
    forall x | x in extracted && Passes(x, keywords) ensures x in once {
      AbsorbMembers(history, keywords, extracted, x);
    }
    AbsorbCovered(once, keywords, extracted);
  }

  /** The store after one site's diff: the URL has a list, the old list (or `[]`)
      followed by exactly the records reported for that site, in the order
      reported; every other URL keeps its list. */
  function SiteStore(store: Store, url: string, keywords: seq<string>, extracted: seq<Record>): (r: Store)
    ensures r.Keys == store.Keys + {url}
    ensures r[url] == Lookup(store, url) + Fresh(Lookup(store, url), keywords, extracted)
    ensures forall u :: u in store && u != url ==> r[u] == store[u]
  {
    store[url := Absorb(Lookup(store, url), keywords, extracted)]
  }

  /** Before any record is examined, the store only gains the URL's empty list
      if it had none. */
  lemma SiteStoreStart(store: Store, url: string, keywords: seq<string>)
    ensures SiteStore(store, url, keywords, []) == if url in store then store else store[url := []]
  {
  }

  /** Examining record `i` of the batch: the URL's list so far gains the record
      when it passes and the list does not hold it, and so does the report. */
  lemma SiteStoreStep(store: Store, url: string, keywords: seq<string>, extracted: seq<Record>, i: nat)
    requires i < |extracted|
    ensures var current := SiteStore(store, url, keywords, extracted[..i]);
            var d := extracted[i];
            var added := Passes(d, keywords) && d !in current[url];
            && url in current
            && SiteStore(store, url, keywords, extracted[..i + 1])
               == (if added then current[url := current[url] + [d]] else current)
            && Fresh(Lookup(store, url), keywords, extracted[..i + 1])
               == Fresh(Lookup(store, url), keywords, extracted[..i]) + (if added then [d] else [])
  {
    AbsorbPrefixStep(Lookup(store, url), keywords, extracted, i);
  }

  /** Lines 141-150 for one site: create the URL's list if it is missing, then
      append every passing record not yet in the list, to the list and to the
      run's `new_matches`. Only the URL's list changes; nothing is removed or
      reordered. */
  method DiffSite(store: Store, url: string, keywords: seq<string>, extracted: seq<Record>,
                  newMatches: seq<Record>)
    returns (store': Store, newMatches': seq<Record>)
    ensures store' == SiteStore(store, url, keywords, extracted)
    ensures newMatches' == newMatches + Fresh(Lookup(store, url), keywords, extracted)
  {
    store' := store;
    if url !in store' {
      store' := store'[url := []];
    }
    newMatches' := newMatches;
    SiteStoreStart(store, url, keywords);
    assert extracted[..0] == [];
    var i := 0;
    while i < |extracted|
      invariant i <= |extracted|
      invariant store' == SiteStore(store, url, keywords, extracted[..i])
      invariant newMatches' == newMatches + Fresh(Lookup(store, url), keywords, extracted[..i])
    {
      var data := extracted[i];
      var title := Get(data, "title", "");
      SiteStoreStep(store, url, keywords, extracted, i);
      assert CheckKeywords(title, keywords) == Passes(data, keywords);
      if CheckKeywords(title, keywords) && data !in store'[url] {
        newMatches' := newMatches' + [data];
        store' := store'[url := store'[url] + [data]];
      }
      i := i + 1;
    }
    assert extracted[..i] == extracted;
  }
}
