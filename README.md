# Tender notifier: match selection

`NotifierBerlin.py` watches the procurement-notice listing of berlin.de. On each
run it extracts every tender (title and link) from the listing page, keeps
the tenders whose title contains one of the site's keywords (ignoring case),
compares them with the matches stored for that page's URL, e-mails the ones
not seen before, and writes the updated matches back to `matches.json`.

This project models the deterministic part of that pipeline in Dafny and
proves what it guarantees:

- `text.dfy` (module `Text`): the Python string built-ins the script relies on.
  These are `str.lower` (ASCII letters), the substring test `needle in hay`
  and `str.strip` (with Python's own whitespace set).
- `records.dfy` (module `Records`): a tender record as a JSON object,
  `map<string, string>`, compared structurally as Python compares dicts.
  It also holds `dict.get` with a default and `Match.to_dict`.
- `keywords.dfy` (module `Keywords`): `check_keywords`.
- `extract.dfy` (module `Extract`): the pure part of the page extraction.
  Titles are stripped, links are rebuilt as the fixed base plus `href[29:-19]`
  with Python's clamped slicing, the title and link lists are paired by
  `zip`, and an item whose `href` is missing is skipped.
  `wrappers.dfy` (module `Wrappers`) holds `Option` and the "keep what
  succeeded" collection this uses.
- `diff.dfy` (module `Diff`): the diff loop of `main` (lines 141-150). The
  method `DiffSite` is proved against the fold `Absorb`, which gives the URL's
  list after the loop; `Fresh` gives the records it reports.
- `notify.dfy` (module `Notify`): the subject and body that `send_email` composes.
- `run.dfy` (module `Run`): one whole run of `main` over the configured sites,
  and the properties of two consecutive runs.

The matches store is an in-memory `map<string, seq<Record>>`, passed in and
handed back. What the browser reports for a page is an input (`Page`, or
`None` when loading the page or waiting for its elements failed). The
e-mail is returned as a value instead of being sent.

Records carry a title and a link only: the script extracts no date, and the
e-mail lists none. The keywords are a list. `main` clears the matches file
before it loads it, so the load never sees an earlier run's matches (see
Findings).

## Model

| member | source | states |
|---|---|---|
| Text.LowerStr | NotifierBerlin.py:108 | `lower()` keeps the length and lower-cases each character on its own |
| Text.LowerStrIdempotent | NotifierBerlin.py:108-109 | lower-casing twice is lower-casing once |
| Text.LowerStrHasNoCapitals | NotifierBerlin.py:108 | a lower-cased string holds no ASCII capital |
| Text.Contains | NotifierBerlin.py:109 | `needle in hay` holds exactly when `needle` occurs at some index of `hay`; the empty string occurs everywhere |
| Text.Strip | NotifierBerlin.py:93 | `strip()` returns a middle piece of the text that neither starts nor ends with whitespace, and everything cut off on either side is whitespace |
| Text.StripIdempotent | NotifierBerlin.py:93 | stripping a stripped title changes nothing |
| Records.Get | NotifierBerlin.py:116-117 | `dict.get` returns the value bound to the key, or the default when the key is absent |
| Records.ToDict | NotifierBerlin.py:29-35 | `to_dict` yields a record with exactly the keys `title` and `link`, holding the given values |
| Records.ToDictInjective | NotifierBerlin.py:34-35 | two built records are structurally equal exactly when their titles and links are equal |
| Keywords.AnyKeywordInSpec | NotifierBerlin.py:109 | the `any(...)` over the keywords holds exactly when some lower-cased keyword occurs in the lower-cased title |
| Keywords.CheckKeywords | NotifierBerlin.py:107-109 | with no keywords no title matches |
| Keywords.CheckKeywordsSpec | NotifierBerlin.py:107-109 | a title matches exactly when some keyword, lower-cased, is a substring of the lower-cased title |
| Keywords.CheckKeywordsIgnoresTitleCase | NotifierBerlin.py:108-109 | lower-casing the title first does not change the verdict |
| Keywords.CheckKeywordsIgnoresKeywordCase | NotifierBerlin.py:109 | lower-casing the keywords first does not change the verdict |
| Keywords.EmptyKeywordMatchesAll | NotifierBerlin.py:109 | an empty keyword lets every title through |
| Keywords.CheckKeywordsMonotone | NotifierBerlin.py:109 | adding keywords, before or after, never turns a match into a non-match |
| Keywords.CateringInAnyCase | NotifierBerlin.py:107-109 | "Catering", "CATERING" and "catering" all match the keyword "catering" |
| Extract.ClampIndex | NotifierBerlin.py:94 | a slice bound is counted from the end when negative and clamped into `[0, len]` |
| Extract.PySlice | NotifierBerlin.py:94 | the slice holds the characters from the clamped start up to the clamped stop, and is empty when the clamped bounds cross |
| Extract.RebuildLink | NotifierBerlin.py:94 | the rebuilt link starts with `https://vergabeportal-bw.de`, has length `27 + max(0, len(href) - 48)`, and continues with `href` from index 29 |
| Extract.RebuildLinkOfFramed | NotifierBerlin.py:94 | an `href` made of 29 characters, a path and 19 characters is rebuilt into the base followed by exactly that path |
| Extract.ZipLength | NotifierBerlin.py:91 | `zip` pairs as many items as the shorter element list holds |
| Extract.ItemRecord | NotifierBerlin.py:92-98 | a pair is skipped exactly when its `href` is missing; otherwise its record holds exactly the stripped title and the rebuilt link, which starts with the base |
| Extract.Extracted | NotifierBerlin.py:91-105 | a failed page yields no records; every extracted record has exactly a title and a link, and the link starts with the base |
| Extract.ExtractedComplete | NotifierBerlin.py:91-95 | when every link element has an `href`, item `k` is the record of the stripped title `k` and the link rebuilt from `href` `k`, and nothing is lost below the shorter list's length |
| Extract.ExtractedKeepsPresent | NotifierBerlin.py:92-98 | a pair whose link element has an `href` is extracted as the record of its stripped title and rebuilt link, whatever happens to the other pairs |
| Extract.ExtractRecords | NotifierBerlin.py:91-98 | the pairing loop appends exactly the records of the pairs whose link could be rebuilt, in page order |
| Wrappers.Somes | NotifierBerlin.py:91-98 | every collected value is a present item of the input, and there are no more values than the input has items |
| Wrappers.SomesKeeps | NotifierBerlin.py:92-98 | a present item is always collected, however many other items failed |
| Wrappers.SomesAppend | NotifierBerlin.py:92-98 | collecting over two batches in turn is collecting over the first, then over the second: the order of the present values is kept |
| Wrappers.SomesAllPresent | NotifierBerlin.py:91-98 | when no item fails, every item is kept in its place |
| Diff.Absorb | NotifierBerlin.py:145-150 | the URL's list after the loop starts with the old list and grows by at most the batch's length |
| Diff.TitleOf | NotifierBerlin.py:146 | the title searched is the record's `title`, or the empty string when it has none |
| Diff.PassesOnlyTitle | NotifierBerlin.py:146-148 | records with the same title pass or fail alike, whatever their link or other keys |
| Diff.Step | NotifierBerlin.py:148-150 | one turn of the loop either keeps the list or appends the record, and it appends exactly when the record passes and is not yet in the list |
| Diff.Fresh | NotifierBerlin.py:145-150 | the list after the loop is the old list followed by the reported records, and no more records are reported than the batch holds |
| Diff.AbsorbMembers | NotifierBerlin.py:145-150 | after the loop the list holds exactly the old records and the batch's records whose title passes the filter |
| Diff.AbsorbNoDuplicates | NotifierBerlin.py:148-150 | a list without duplicates has none after the loop |
| Diff.FreshSound | NotifierBerlin.py:148-150 | every reported record passes the filter, comes from the batch and was not stored before; none is reported twice, even when the batch repeats it |
| Diff.FreshIsKept | NotifierBerlin.py:145-150 | the reported records are exactly the batch's records that pass, were not stored before and do not occur earlier in the batch, in batch order |
| Diff.ReportedOnce | NotifierBerlin.py:148-150 | a passing record of the batch that was not stored before is reported exactly once |
| Diff.AbsorbCovered | NotifierBerlin.py:148 | a batch whose passing records are all stored already leaves the list unchanged |
| Diff.AbsorbIdempotent | NotifierBerlin.py:145-150 | running the loop again over the same batch reports nothing and leaves the list as it was |
| Diff.SiteStoreStart | NotifierBerlin.py:142-143 | before any record is examined the URL gains an empty list if it had none, and nothing else changes |
| Diff.SiteStoreStep | NotifierBerlin.py:145-150 | examining one record appends it to the URL's list and to the report exactly when its title passes and the list does not yet hold it |
| Diff.DiffSite | NotifierBerlin.py:141-150 | the loop leaves the store and `new_matches` as the per-record steps applied in batch order |
| Diff.SiteStore | NotifierBerlin.py:141-150 | after one site's diff the URL has a list, the old list (or `[]`) followed by exactly the reported records; every other URL keeps its list, and no URL is added but this one |
| Notify.BlockList | NotifierBerlin.py:115-118 | there is one block per match, block `k` belonging to match `k` |
| Notify.BlockLayout | NotifierBerlin.py:116-118 | a block is `Title: `, the title or `No Title`, `\nLink: `, the link or `No Link`, then a blank line, each at its own place |
| Notify.BlocksAppend | NotifierBerlin.py:115-118 | the body part for two lists of matches is that of the first followed by that of the second |
| Notify.BlockAt | NotifierBerlin.py:113-118 | match `k` appears in the body as its own `Title:`/`Link:` block, right after the header and the blocks of the earlier matches |
| Notify.BlockOfMatch | NotifierBerlin.py:35 | for a record built by `to_dict` the block shows its title and link, no default being used |
| Notify.ComposeBody | NotifierBerlin.py:112-118 | the body is the fixed header followed by the blocks of the matches in order |
| Run.RunGrows | NotifierBerlin.py:141-150 | a run only appends: no URL disappears, no stored list loses or reorders a record, and every configured site ends with a list |
| Run.RunSitesFrame | NotifierBerlin.py:133-150 | after the site loop the store has a list for every URL it had and every configured URL, and no other; a URL that is not configured keeps its list |
| Run.DiffSites | NotifierBerlin.py:133-150 | the site loop leaves the store and `new_matches` as the per-site diffs applied in site order to the records each page yields |
| Run.RunCovers | NotifierBerlin.py:142-150 | after a run the store holds every passing record of every site's batch under the site's URL |
| Run.RunCovered | NotifierBerlin.py:145-150 | a run over a store that already holds every passing record reports nothing and changes nothing |
| Run.RunIdempotent | NotifierBerlin.py:145-157 | a second run with the same extraction output over the saved store finds no new matches, so sends no e-mail, and saves the same store |
| Run.RunNoDuplicates | NotifierBerlin.py:148-150 | no stored list gains a duplicate during a run |
| Run.RunPass | NotifierBerlin.py:131-157 | the run's store and new matches are those of the site loop; an e-mail is composed exactly when there are new matches, with the fixed subject and the header followed by their blocks |
| Run.RunAfterClear | NotifierBerlin.py:127-131 | as written, every run starts from the empty store, whatever was saved before |
| Run.SamplePasses | NotifierBerlin.py:146-148 | the record titled "Catering Ausschreibung" passes the keyword "catering" |
| Run.SamplePassesConfigured | NotifierBerlin.py:16-19 | the sample record passes the keywords of the configured site |
| Run.SampleRuns | NotifierBerlin.py:133-157 | on the configured site list, from an empty store the sample record is new and is stored under the site's URL; the next run over that store reports nothing |
| Run.SampleRepeatsAfterClear | NotifierBerlin.py:128-129 | since the store is cleared before it is read, the run after the sample run reports the sample record again |

## Findings

| source | as written | input that shows it | evidently intended | confidence | as-written member | corrected member |
|---|---|---|---|---|---|---|
| NotifierBerlin.py:128-129 | `main` clears `matches.json` and then loads it, so the loaded store is always `{}` | two consecutive runs that both extract the record titled "Catering Ausschreibung"; the second run reports it again although the first run saved it | load the store the previous run saved, so a tender already reported is not e-mailed again | medium, not executed | Run.SampleRepeatsAfterClear | Run.RunIdempotent |

`Run.RunPass` takes the loaded store as a parameter, so the rest of the model
runs against the saved store. `Run.RunAfterClear` keeps the code as written.

## Left out

- Browser driving in `extract_titles_and_links_with_selenium` (lines 56-90, 100-103) is not modelled: the headless Chrome session, the waits, the cookie-dialog click and the DOM queries. This is a foreign library with timing-dependent behaviour. A page's element texts and `href`s are an input, and a page that failed to load is `None`.
- Per-item extraction errors other than a missing `href` (line 97), such as an element that goes stale while it is read, are not modelled.
- The mail transport, `yagmail.SMTP` and `yag.send` (lines 120-125), is not modelled, nor are the credentials read from the environment (lines 22-23) or the fixed recipient address. These are network I/O and configuration. The model returns the message that would be sent; a failed send is caught in the source and changes nothing else.
- JSON file I/O (lines 37-54) is not modelled: `clear_matches_file`, `load_previous_matches`, `save_matches` and `save_text_parts`. The store is passed in and handed back instead. A malformed file, which would abort the run, is not modelled, and neither is the diagnostic `extracted_text_parts.json`.
- Records: only string values are modelled. A stored record is only compared with `==` (line 148), and one holding a non-string value can never equal an extracted record, whose values are always strings (lines 93-95); leaving such records out changes no verdict.
- Text.LowerStr: lower-cases ASCII letters only. Python's `str.lower` also folds non-ASCII letters, such as `Ü` and `Ä` in German titles; the full Unicode case mapping is not modelled.
- Run.RunPass: takes one page per configured site, in site order, instead of driving the browser itself.
- `print` logging and the `os.environ` setting of line 14 are not modelled; they have no effect on the result.
