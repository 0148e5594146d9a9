# Contribution snapshot gatherer, modelled in Dafny

The system gathers, for a list of GitHub repositories and a list of
milestone dates, who contributed what: commits, issues and pull requests.
Each item is filed under the first milestone strictly later than it, keyed
by contributor, with a running `count` and a `list` of records. Two
helper scripts work around the gatherer. One turns the snapshot files back
into flat tables. The other builds the `username -> full name` map that the
gatherer reads, from a CSV export.

This project models that core as Dafny functions, methods and lemmas:

- `Snapshot` (snapshot.dfy): the per-repository snapshot `ms_l`. It has one
  bucket per milestone, and each bucket has three insertion-ordered
  contributor maps. The module holds the invariant `count == len(list)`, the
  bucket choice, the fan-out of one commit to its co-authors and author, and
  `get_full_name`.
- `Collect` (collect.dfy): the two page loops, `gather_commits` and
  `gather_issues_and_prs`, as functions of the responses they are given.
  This covers the stop at the first item older than the cut-off, the
  per-page save, the PR diff aggregation through the `prev_diffs` cache, and
  which categories are written. The commit loop is given twice: as written,
  where a rate-limit answer ends the loop, and with the rate-limit retry
  corrected, which the rest of the model uses (see Findings).
- `Collector` (collector.dfy): the class whose fields are the state the
  source updates in place: `ms_l`, `prev_diffs`, the file writes and the
  requests made. Its methods run the loops step by step and are proved to
  end where the `Collect` and `Finalize` functions say.
- `Diffs` (diffs.dfy): `get_diff` with its bounded retry, and the PR-level
  union of files and sum of changed lines.
- `Finalize` (finalize.dfy) and `StableSort` (sorting.dfy):
  `finalize_repo_data`. Activity lists are sorted by date with a stable
  sort, and contributor maps are ordered by name. Both are permutations,
  and the counts are kept.
- `Repository` (repository.dfy): `process_repos`. It covers the `--only-*`
  category flags, the `owner/repo` split, skipping a 404, one fresh
  collection per repository, and the per-user rows written for each finished
  repository.
- `RepoConfig` (config.dfy): `normalize_repo_entries` on every accepted
  shape of `repos.json`.
- `Dates` (dates.dfy): the `--since YYYY-MM-DD` override and the zero
  padding of date parts.
- `PerUser` (peruser.dfy): `write_per_user_csvs`. `sanitize` turns a
  contributor name into a file name, and `aggregate` groups the rows.
- `Flatten` (flatten.dfy): `flatten_commits`, `flatten_issues`,
  `flatten_prs`, and the row counts of `process_file` and
  `process_directory`. The round trip from the written snapshot to its
  row counts is proved.
- `Usernames` (usernames.dfy): `normalize_header`, the case-insensitive
  header lookup with inference of the name columns, and the row mapping.
- `Text`, `Dicts`, `Wrappers`: `str.strip`/`lower`/`split`, insertion-ordered
  dicts as lists of pairs, and `Option`/`Result`.

The network, the clock and the file system are not called. A list
endpoint is a finite sequence of responses, consumed one per request. The
answers to `get_diff` are a function of the attempt number. A file write
is recorded as the value written. Dates are integer timestamps. The
fixed-width display string that the source compares is represented by the
timestamp shifted by the three-hour display offset, which orders the same.

## Model

| member | source | states |
|---|---|---|
| Text.LowerChar | csv_to_usernames_json.py:19 | `str.lower()` on one character: A-Z map to a-z (code point + 32), every other character is kept, and whitespace is neither gained nor lost |
| Text.Lower | csv_to_usernames_json.py:19 | lower-casing keeps the length and lower-cases character by character |
| Text.TrimStart | csv_to_usernames_json.py:19 | the result is a suffix of the input, starts with a non-space, and everything removed is whitespace |
| Text.TrimEnd | csv_to_usernames_json.py:19 | the result is a prefix of the input, ends with a non-space, and everything removed is whitespace |
| Text.Strip | csv_to_usernames_json.py:19 | `str.strip()` returns a slice of its input whose removed prefix and suffix are all whitespace and which neither starts nor ends with whitespace |
| Text.StripTrimmed | csv_to_usernames_json.py:19 | a string with no whitespace at either end is its own strip |
| Text.StripIdempotent | csv_to_usernames_json.py:19 | stripping twice is stripping once |
| Text.LowerKeepsTrimmed | csv_to_usernames_json.py:19 | lower-casing a stripped string leaves it stripped |
| Text.LowerIdempotent | csv_to_usernames_json.py:19 | lower-casing twice is lower-casing once |
| Text.LowerTrimStart | csv_to_usernames_json.py:19 | lower-casing commutes with removing leading whitespace |
| Text.LowerTrimEnd | csv_to_usernames_json.py:19 | lower-casing commutes with removing trailing whitespace |
| Text.LowerStrip | csv_to_usernames_json.py:19 | `s.strip().lower() == s.lower().strip()` |
| Text.Split | gather.py:80 | `s.split('-')` always yields at least one piece, and no piece holds the separator |
| Text.SplitCount | gather.py:80 | there is one more piece than there are separators |
| Text.SplitJoin | gather.py:80 | joining the pieces with the separator gives the input back |
| Text.StrLeTotal | gather.py:673 | Python string order is total |
| Text.StrLeTransitive | gather.py:673 | Python string order is transitive |
| Text.StrLeAntisymmetric | gather.py:673 | two strings ordered both ways are equal, so ordering dict keys by name is well defined |
| Dicts.DictPut | gather.py:578 | assigning a key in an insertion-ordered dict keeps keys distinct, keeps the positions of existing keys, stores the new pair, keeps every other pair, and adds at most one entry |
| Dicts.DictOf | gather.py:578 | the dict built by the `{sha: url ...}` comprehension has distinct keys |
| Dicts.DictOfEntries | gather.py:578 | the comprehension keeps one entry per key that occurs, holding the value of the key's last occurrence |
| Dicts.GetPresent | gather.py:578-585 | looking up a stored key gives its value |
| Dicts.GetAbsent | gather.py:578-585 | looking up a key that is not stored gives nothing |
| Dicts.GetDictOf | gather.py:578 | looking a sha up in the comprehension's dict gives the url of its last occurrence |
| Dates.ZeroFillReads | gather.py:93-98 | a zero-filled number is a run of digits that reads back as that number |
| Dates.PadEffect | gather.py:93-98 | `f'{n:0{w}d}'` is exactly `w` characters when the number fits and never truncated otherwise, and `int()` reads it back as `n` |
| Dates.PadReadsBack | gather.py:93-98 | `int()` of the padded form is the number padded, negative numbers included |
| Dates.PadStripped | gather.py:93-98 | a padded number has no whitespace for `int()` to strip |
| Dates.PadParses | gather.py:93-98 | the sign and the zero-filled digits of a padded number parse back to the number |
| Dates.SignedParse | gather.py:82-84 | `int()` of a minus sign before a digit run is the negated value of the digits |
| Dates.PaddedDigits | gather.py:93-98 | zeros followed by the decimal digits of `m` are a digit string worth `m` |
| Dates.DigitsRoundTrip | gather.py:93-98 | reading back the decimal digits of `n` gives `n` |
| Dates.Digits | gather.py:93-98 | the decimal form of a non-negative number is a non-empty run of digits with no leading zero |
| Dates.Zeros | gather.py:93-98 | the fill is exactly as many `0` characters as the width asks for, none for a non-positive count |
| Dates.LeadingZeros | gather.py:82-84 | leading zeros do not change what `int()` reads |
| Dates.AllZeros | gather.py:82-84 | a string of zeros reads as 0 |
| Dates.SinceOverride | gather.py:78-89 | the `--since` override either keeps the configured cut-off or gives midnight of the parsed day |
| Dates.SinceEffect | gather.py:78-89 | a `YYYY-MM-DD` value (optionally followed by `-...`) is read back exactly, at midnight |
| Dates.SinceRejects | gather.py:78-89 | a value with fewer than two dashes raises IndexError and keeps the configured cut-off |
| Dates.SinceFromParts | gather.py:80-86 | when the first three dash-separated pieces read as integers, the cut-off becomes that day at midnight |
| Dates.SplitDate | gather.py:80 | splitting `a-b-c` (followed by nothing or `-...`) gives `a`, `b`, `c` as its first three pieces |
| Dates.NoDash | gather.py:93-98 | a padded non-negative number holds no dash and is not empty |
| Dates.SplitAfter | gather.py:80 | a dash-free prefix is the first piece of the split |
| Dates.SplitPrefix | gather.py:80 | the first piece of the split starts with any dash-free prefix |
| Dates.FormatEffect | gather.py:92-99 | formatting a date loses nothing: every part reads back as its integer; a year below 10000 is four characters and a month below 100 two |
| Dates.DigitsBound | gather.py:93-98 | a number below `10^w` has at most `w` digits |
| Dates.FormatAll | gather.py:101-113 | the milestone loop formats every date, in order, one result per date |
| Snapshot.Bucket.Get | gather.py:356 | a category map of a well-formed bucket is well formed |
| Snapshot.Bucket.Put | gather.py:474-475 | replacing one category map changes only that map, keeps the date and keeps well-formedness |
| Snapshot.IndexOf | gather.py:474 | the position found holds the key and is its first occurrence; no position means the key is absent |
| Snapshot.FullName | gather.py:211-213 | `get_full_name` gives the mapped name for a mapped user and the username itself otherwise |
| Snapshot.Record | gather.py:474-486 | recording an activity creates the entry if missing, appends the activity, adds one to the count, touches no other contributor, keeps count == len(list), grows the map by one only for a new contributor and keeps key order |
| Snapshot.IndexOfSameKeys | gather.py:474 | maps with the same keys in the same order find every key at the same position |
| Snapshot.IndexOfExtend | gather.py:474-479 | appending a new key puts it last and leaves every other key where it was |
| Snapshot.Touch | gather.py:602-607 | creating an entry without recording: the contributor has its existing or fresh entry, nobody else changes, well-formedness is kept |
| Snapshot.Repeat | gather.py:470 | `n` copies of an activity |
| Snapshot.RecordAllEffect | gather.py:468-487 | fan-out over `coauthors + [author]`: a contributor named `n` times gains exactly `n` copies of the record and `n` in its count, keeping its full name (or getting the mapped one when new); nobody else changes |
| Snapshot.RecordFirst | gather.py:470-486 | the fan-out step when the first name is the contributor looked at |
| Snapshot.RecordOne | gather.py:474-486 | one record grows the named contributor by one copy and changes nobody else |
| Snapshot.GrownTwice | gather.py:480-486 | one more record followed by `n` more is `n + 1` more |
| Snapshot.RepeatCons | gather.py:480 | one copy before `n` copies is `n + 1` copies |
| Snapshot.RecordAllWellFormed | gather.py:468-487 | fan-out keeps every count equal to its list length and keys distinct |
| Snapshot.FirstLater | gather.py:468-469 | bucket choice: the chosen milestone is later than the item and every earlier one is not; there is no bucket exactly when no milestone is later |
| Snapshot.PlaceEffect | gather.py:468-487 | an item lands in exactly one bucket (the earliest milestone after it), only in its category; an item at or after every milestone changes nothing; well-formedness is kept |
| Snapshot.PlaceLands | gather.py:468-487 | in the chosen bucket each contributor grows by one record per time it is named; other categories and other buckets are unchanged |
| StableSort.Insert | gather.py:664-667 | insertion adds exactly one element and keeps the multiset |
| StableSort.Sort | gather.py:664-667 | `sorted` returns a permutation of its input |
| StableSort.InsertSorted | gather.py:664-667 | inserting into an ordered sequence keeps it ordered |
| StableSort.SortSorted | gather.py:664-667 | `sorted` returns an ordered permutation of its input |
| StableSort.InsertLast | gather.py:664-667 | an element no smaller than everything goes last |
| StableSort.SortOfSorted | gather.py:664-667 | sorting an ordered sequence leaves it unchanged |
| StableSort.SortIdempotent | gather.py:664-667 | sorting twice is sorting once |
| StableSort.Ties | gather.py:664-667 | the elements tied with a key are a subsequence, so never more than the input |
| StableSort.TiesAppend | gather.py:664-667 | the ties of a concatenation are the ties of each part, in order |
| StableSort.InsertTies | gather.py:664-667 | insertion places a tied element after every element it ties with |
| StableSort.NoTies | gather.py:664-667 | a sequence with no element tied to the key has no ties |
| StableSort.NoTiesAbove | gather.py:664-667 | nothing strictly above an element ties with that element's key |
| StableSort.SortStable | gather.py:664-667 | stability: for every key, the elements with that key keep their original relative order |
| Finalize.ByDateTotal | gather.py:666 | ordering activities by date is a total preorder |
| Finalize.ByNameTotal | gather.py:673 | ordering dict items by name is a total preorder |
| Finalize.SortLists | gather.py:661-667 | every contributor keeps its name and has its list sorted by date |
| Finalize.FinalizeSnapshot | gather.py:648-673 | finalising keeps one bucket per milestone |
| Finalize.FinalizeEach | gather.py:661-673 | the loop over buckets finalises each bucket |
| Finalize.FinalizeMapEffect | gather.py:661-673 | a finalised map is ordered by name with date-ordered lists, has as many entries as before, each contributor keeping its count, full name and records, and well-formedness is kept |
| Finalize.FinalizeMapMembers | gather.py:661-673 | finalising neither loses nor invents a contributor or a record |
| Finalize.FinalizeMapOrdered | gather.py:661-673 | a finalised map is ordered by name with every list in date order |
| Finalize.FinalizeMapWellFormed | gather.py:661-673 | finalising keeps count == len(list) and distinct names |
| Finalize.PermutedEntries | gather.py:673 | reordering the items of a map keeps every entry, its sorted lists and well-formedness |
| Finalize.PermutedSame | gather.py:673 | every entry of the reordered map matches one of the original and back |
| Finalize.PermutedWellFormed | gather.py:673 | reordering the items of a well-formed map keeps it well formed |
| Finalize.SortListsEffect | gather.py:661-667 | sorting a contributor's list keeps its count, full name and records and orders them by date |
| Finalize.PermutationMembers | gather.py:673 | a permutation holds the same elements (generic helper, not a model of the cited line) |
| Finalize.AtMostOnce | gather.py:673 | with distinct keys each item occurs at most once |
| Finalize.CountPair | gather.py:673 | two positions with the same element count it twice (generic helper, not a model of the cited line) |
| Finalize.DistinctPositions | gather.py:673 | a reordering of distinct-keyed items holds different items at different positions |
| Finalize.FinalizeFixpoint | gather.py:661-673 | a finalised map is its own finalisation |
| Finalize.FinalizeIdempotent | gather.py:648-678 | finalising twice gives the same snapshot as finalising once |
| Finalize.FinalizeWellFormed | gather.py:648-678 | the finalised snapshot keeps count == len(list) everywhere and every map is finalised |
| Diffs.DiffExhausted | gather.py:38-41 | when every remaining attempt fails, `get_diff` gives empty filenames and total 0 |
| Diffs.DiffFirstAnswer | gather.py:29-41 | the first attempt that does not fail decides the outcome: its files and total, or an escaping exception for a body without `files`/`stats` |
| Diffs.GetDiff | gather.py:27-50 | the retry loop makes at most `retry_count` requests, all but the last of them failed; the last served one gives its stats, an incomplete body escapes, and the last failed one gives `{set(), 0}`; zero retries make no request |
| Diffs.PrFilesBounds | gather.py:588-591 | a file several commits touch is counted once: the PR's file count is at most the sum of per-commit counts (equal when no two commits share a file) and at least each commit's own count |
| Diffs.SetUnionSize | gather.py:590 | a union is no larger than its parts together, and exactly as large when they are disjoint (generic helper, not a model of the cited line) |
| Diffs.SubsetSize | gather.py:590 | a subset is no larger than its superset (generic helper, not a model of the cited line) |
| Diffs.UnionContains | gather.py:589-590 | every commit's files are in the PR's union |
| Diffs.UnionWitness | gather.py:589-590 | every file in the union comes from some commit |
| Diffs.PrDiffExample | gather.py:588-591 | two commits touching {a, b} and {b, c} with 5 and 7 lines give 3 files and 12 lines |
| Diffs.MissingUrlsUnaffected | gather.py:580-583 | caching a SHA outside the dict does not change which URLs are still missing |
| Diffs.FetchAllEffect | gather.py:578-586 | the `prev_diffs` cache discipline: cached SHAs are never requested and keep their value; the cache only gains SHAs of the PR; each missing SHA is requested once, in dict order; on success there is one stat per commit, the cached one |
| Diffs.FetchAllCache | gather.py:580-585 | the cache keeps every earlier value and only gains SHAs of the PR |
| Diffs.FetchAllFetched | gather.py:580-583 | the requested URLs are a prefix of the missing ones, all of them when no fetch raised |
| Diffs.FetchAllStats | gather.py:580-586 | when no fetch raised there is one stat per commit, equal to the cache's value for its SHA |
| Collect.InitialBuckets | gather.py:356 | `ms_l` starts with one empty, well-formed bucket per milestone |
| Collect.PrimaryAuthor | gather.py:449-454 | the author is `author.login` when present, else `commit.author.name`, else `"unknown"` |
| Collect.CommitStep | gather.py:437-490 | one pass of the commit loop body keeps one bucket per milestone |
| Collect.CommitStepEffect | gather.py:437-490 | a commit ends the page exactly when it is stale, and then changes nothing; otherwise it requests at most its own detail URL, keeps every other cached stat, changes buckets and cache only when recorded, never writes the file, and keeps the snapshot well formed |
| Collect.CommitLands | gather.py:461-487 | a recorded commit's detail is requested even when its SHA is cached and the cache entry is overwritten; the commit lands under `commits` in the first later milestone only, each of `coauthors + [author]` gaining one copy per mention |
| Collect.CommitAfterEveryMilestone | gather.py:468-469 | a commit at or after every milestone changes no bucket |
| Collect.CommitItems | gather.py:437-490 | a page of commits keeps one bucket per milestone |
| Collect.CommitItemsEffect | gather.py:437-445 | a page's commits end pagination exactly when one of them is stale; they never write the file and keep the snapshot well formed |
| Collect.StaleCutsPage | gather.py:442-444 | the first stale commit ends the page and the commits after it are never looked at |
| Collect.CommitsRun | gather.py:404-502 | the commit page loop keeps one bucket per milestone |
| Collect.CommitsRunEffect | gather.py:401-502 | the commit loop starts at page 1, each later request is the same page (rate-limit wait) or the next; every change to the buckets is followed by a write of the file; the snapshot stays well formed |
| Collect.CommitsRunKeeps | gather.py:397-502 | the commit loop writes only the `commits` maps |
| Collect.CommitItemsKeeps | gather.py:437-490 | a page of commits writes only the `commits` maps |
| Collect.CommitStepKeeps | gather.py:468-487 | one commit writes only the `commits` maps |
| Collect.StalePageIsLast | gather.py:492-499 | a page holding a stale commit is saved and is the last one requested |
| Collect.FreshPageContinues | gather.py:492-501 | a page with no stale commit is saved and the next page is requested |
| Collect.CommitsRunErrors | gather.py:416-432 | a short rate-limit wait repeats the same page with nothing changed; a long wait, any other request error, a non-list body and an empty page end the loop with nothing changed |
| Collect.RetryGuardNeverHolds | gather.py:417-418 | the guard in front of the rate-limit wait never holds, because `raise_for_status` only raises for statuses of 400 or more and a `Response` with such a status is falsy |
| Collect.CommitsRunAsWritten | gather.py:404-502 | the commit page loop as written: every request error, the rate-limit answer included, ends the loop; it starts at page 1 and keeps one bucket per milestone |
| Collect.RateLimitEndsAsWritten | gather.py:416-429 | a 403 rate-limit answer fails the guard, so the loop as written ends on it with nothing recorded or saved |
| Collect.CommitsRunAgree | gather.py:404-502 | the loop as written and the corrected loop end alike on every answer sequence without a short rate-limit wait |
| Collect.RateLimitDiffers | gather.py:416-429 | on a short rate-limit wait followed by a non-empty page, the loop as written stops after one request with nothing saved, while the corrected loop requests the same page again and saves the snapshot |
| Collect.Values | gather.py:544-545 | the label names and assignee logins, in order |
| Collect.FullNames | gather.py:610-612 | `assignee_full_names` maps every assignee through `get_full_name`, in order |
| Collect.CommentList | gather.py:557-564 | the comment loop fails exactly when some comment's author cannot be read; otherwise one comment per element, with author, mapped full name and body |
| Collect.PlaceIssue | gather.py:596-631 | adding an issue or PR to the milestone lists touches neither the cache nor the file and keeps one bucket per milestone |
| Collect.PlaceIssueWellFormed | gather.py:596-631 | adding an issue or PR keeps count == len(list) |
| Collect.IssueLands | gather.py:596-631 | an issue or PR lands in the first later milestone only, under `issues` or `prs`: its author gains exactly this record (or only an empty entry when `state` is missing); every other contributor, category and bucket is unchanged |
| Collect.IssueLandsAt | gather.py:597-631 | in the chosen bucket only the author's entry of the item's category changes, by this one record (or only creation when `state` is missing) |
| Collect.RecordOnceLookup | gather.py:629-630 | one record grows only its contributor, by exactly that record |
| Collect.IssueStep | gather.py:528-634 | one pass of the issue loop body keeps one bucket per milestone |
| Collect.IssueStepEffect | gather.py:528-634 | an item ends the page exactly when it is stale; an item of a category not gathered changes nothing; cached stats keep their values; requests are only appended; an issue (not a PR) touches neither cache nor requests; the file is not written; the snapshot stays well formed |
| Collect.PrStepEffect | gather.py:571-591 | the PR branch keeps cached stats and only appends requests, keeps the file and keeps the snapshot well formed |
| Collect.PrFetchesMissingOnly | gather.py:578-586 | a PR requests, in dict order, a prefix of the detail URLs of the SHAs not cached yet |
| Collect.PrWithoutCommitList | gather.py:592-594 | a PR whose commit list cannot be fetched is recorded with `{files: 0, total: 0}` |
| Collect.IssueItems | gather.py:528-634 | a page of items keeps one bucket per milestone |
| Collect.IssueItemsEffect | gather.py:528-539 | a page's items end pagination exactly when one of them is stale; they never write the file and keep the snapshot well formed |
| Collect.ExcludedNeverStops | gather.py:532-534 | items of categories not gathered never end a page, however old, and change nothing |
| Collect.ExcludedUnchanged | gather.py:532-534 | items of categories not gathered leave the store unchanged |
| Collect.IssuesRun | gather.py:510-646 | the issue page loop keeps one bucket per milestone |
| Collect.IssuesRunEffect | gather.py:507-646 | any request error ends the issue loop, so the pages requested are consecutive from 1 and at most one more than the answers; every change to the buckets is followed by a write; the snapshot stays well formed |
| Collect.IssuesRunKeeps | gather.py:504-646 | the issue loop never writes `commits`, and leaves `issues` (`prs`) alone when they are not gathered |
| Collect.IssueItemsKeeps | gather.py:528-634 | a page of items leaves the categories not gathered alone |
| Collect.IssueStepKeeps | gather.py:528-634 | one item leaves the categories not gathered alone |
| Collect.PlaceIssueKeeps | gather.py:597-631 | placing an item changes only its own category |
| Collect.IssuesRunSavesEachPage | gather.py:636-639 | every non-empty page without a stale item is saved and followed by another request |
| Collector.Collection.constructor | gather.py:356-369 | a repository starts with one empty bucket per milestone, an empty `prev_diffs`, nothing written and nothing requested |
| Collector.Collection.ChooseBucket | gather.py:468-469 | the enumerate loop picks the first milestone strictly later than the item, or none |
| Collector.Collection.RecordAllIn | gather.py:468-487 | the fan-out on bucket `i` replaces only that bucket's category map with its fan-out, touches nothing else and keeps the collection valid |
| Collector.Collection.FanOut | gather.py:470-486 | the `for author_name in coauthors + [author_t]` loop computes the fan-out whose effect `Snapshot.RecordAllEffect` states |
| Collector.Collection.Save | gather.py:492-494 | writing the file appends the current buckets to what was written and changes nothing else |
| Collector.Collection.ProcessCommit | gather.py:437-490 | one commit of a page moves the state exactly as `Collect.CommitStep` says, and the collection stays valid |
| Collector.Collection.ProcessCommitPage | gather.py:437-490 | the loop over a page of commits moves the state exactly as `Collect.CommitItems` says |
| Collector.Collection.GatherCommits | gather.py:397-502 | the commit page loop ends in the state, and with the page numbers, that `Collect.CommitsRun` describes (the corrected rate-limit retry included) |
| Collector.Collection.ReadPrDiff | gather.py:572-591 | reading a PR's diff through `prev_diffs` leaves the cache and the requests as `Diffs.FetchAll` says and returns the sum of the per-commit stats, or nothing when a fetch raised |
| Collector.Collection.FetchDiffs | gather.py:580-591 | the loop over the sha/url dict matches `Diffs.FetchAll` and sums the stats |
| Collector.Collection.DiffOf | gather.py:581-585 | a cached SHA gives its cached stat with no request; otherwise one `get_diff` call, whose stat is cached when it returned |
| Collector.Collection.SumDiffs | gather.py:588-591 | `diff_d` is the size of the union of the files and the sum of the totals |
| Collector.Collection.ReadComments | gather.py:557-564 | the comment loop computes `Collect.CommentList` |
| Collector.Collection.AssigneeFullNames | gather.py:610-612 | the assignee loop maps each assignee to its full name, in order |
| Collector.Collection.PlaceIssueIn | gather.py:597-631 | placing an issue or PR moves the state exactly as `Collect.PlaceIssue` says |
| Collector.Collection.IssueActivityOf | gather.py:614-627 | the record `d` of an issue or PR holds its title, body, shifted date, labels, assignees and their full names, link, state, comments and diff |
| Collector.Collection.TouchIn | gather.py:602-607 | creating the author's entry changes only that category map of bucket `i` |
| Collector.Collection.RecordIn | gather.py:629-630 | appending the record changes only that category map of bucket `i` |
| Collector.Collection.ProcessIssue | gather.py:528-634 | one issue or PR moves the state exactly as `Collect.IssueStep` says |
| Collector.Collection.ProcessIssuePage | gather.py:528-634 | the loop over a page of items moves the state exactly as `Collect.IssueItems` says |
| Collector.Collection.GatherIssuesAndPrs | gather.py:504-646 | the issue page loop ends in the state, and with the page numbers, that `Collect.IssuesRun` describes |
| Collector.Collection.FinalizeAll | gather.py:648-678 | finalising replaces the buckets by `Finalize.FinalizeSnapshot` of them and writes the file once more, keeping the collection valid |
| Collector.CommitsRunUnfold | gather.py:404-502 | one turn of the commit loop: a short rate-limit wait repeats the page; an error, a non-list body or an empty page ends the loop unchanged; a page is processed, saved, and ends the loop when stale |
| Collector.ThenRunAppend | gather.py:501 | pages recorded in two goes are the pages recorded in one |
| Collector.IssuesRunUnfold | gather.py:510-646 | one turn of the issue loop: an error, a non-list body or an empty page ends it unchanged; a page is processed, saved, and ends the loop when stale |
| Collector.ThenStep | gather.py:580-586 | one turn of the PR diff loop: a cached SHA adds its cached stat; a fresh one adds its URL and stat to the cache or ends the loop when `get_diff` raised |
| Collector.ThenNothing | gather.py:579 | nothing gathered yet leaves the rest of the PR diff loop as it is |
| Collector.TouchThenRecord | gather.py:602-630 | creating the entry and then recording into it equals recording directly |
| Collector.TouchThenRecordNew | gather.py:602-630 | for a new author, creating then recording gives the single entry `{count: 1, list: [d]}` |
| Repository.Select | gather.py:372-377 | with no `--only-*` switch every category is gathered, otherwise exactly the switched ones |
| Repository.SplitRepo | gather.py:355 | `repo_tuple.split('/')` unpacks exactly when the entry holds one `/`; the halves hold no `/` and joined with `/` give the entry back |
| Repository.GatherRepoSpec | gather.py:351-390 | one repository's run keeps one bucket per milestone |
| Repository.GatherRepo | gather.py:356-390 | a fresh collection runs commits when selected, then issues/PRs when either is selected, then finalisation, ending in the store `GatherRepoSpec` describes |
| Repository.GatherRepoEffect | gather.py:379-390 | a repository's file ends with its finalised, well-formed snapshot, one bucket per milestone |
| Repository.GatherRepoSelects | gather.py:375-387 | every bucket keeps its milestone date, and a category not selected stays empty in every bucket |
| Repository.ProcessReposAborts | gather.py:351-366 | the run stops with an exception exactly when some entry lacks a single `/` or answers the existence check with an error other than 404; otherwise every reachable repository is finished, 404s being skipped |
| Repository.WritePerUser | gather.py:741-743 | the three `aggregate(c) if write_c else {}` lines compute the per-user rows of each gathered category from the final snapshot |
| Repository.PerUserCovers | gather.py:680-762 | a category that is written gets one file per contributor of the snapshot, each contributor once; a category not written gets none |
| Repository.ProcessReposPerUser | gather.py:389-393 | every finished repository has its per-user rows aggregated from its finalised snapshot, under its `owner-repo` slug, for the gathered categories only |
| Repository.ProcessReposFinished | gather.py:351-395 | every repository the run finishes ends with a finalised, well-formed snapshot as its file's last write |
| Repository.ProcessRepos | gather.py:330-395 | the loop over repositories, each with a fresh collection and its per-user rows, ends in the outcome `ProcessReposSpec` describes |
| RepoConfig.Or | gather.py:831 | Python's `a or b`: truthy exactly when either operand is, the first operand when it is truthy, otherwise the second |
| RepoConfig.FlatEntries | gather.py:826-839 | a flat list yields at most one entry per element |
| RepoConfig.OrgEntries | gather.py:852-867 | an organisation's list yields at most one entry per element |
| RepoConfig.ChosenOrgs | gather.py:842-846 | `orgs` is used when it is a dictionary, else `organizations` when that is one, else neither |
| RepoConfig.NormalizeFlat | gather.py:826-839 | the loop over a flat list appends exactly the entries `FlatEntries` describes |
| RepoConfig.NormalizeOrg | gather.py:852-867 | the loop over one organisation appends exactly its entries after those gathered so far |
| RepoConfig.NormalizeGroups | gather.py:847-868 | the loop over organisations, in key order, appends each one's entries and skips values that are not lists |
| RepoConfig.GroupsStep | gather.py:848-851 | the entries of the organisations from `k` on are those of organisation `k` followed by the rest |
| RepoConfig.Regroup | gather.py:829 | appending entries one group at a time gives the same list (generic helper, not a model of the cited line) |
| RepoConfig.NormalizeRepoEntries | gather.py:823-875 | `normalize_repo_entries` returns exactly `Normalize(cfg)`: flat list, organisation groups, single-repository object, or nothing for any other shape |
| RepoConfig.FlatEntriesAppend | gather.py:827-838 | normalising a flat list is compositional: a concatenation gives each part's entries in order |
| RepoConfig.OrgEntriesAppend | gather.py:852-867 | the same for the items of one organisation |
| RepoConfig.GroupsEntriesAppend | gather.py:848-867 | the same for the organisations |
| RepoConfig.FlatKeepsNames | gather.py:828-829 | a string in a flat list is kept verbatim, without a branch, after the entries of the elements before it |
| RepoConfig.FlatEntriesShape | gather.py:826-839 | every flat-list entry is a string element (no branch) or a `/`-holding name from a dictionary element, with that element's branch |
| RepoConfig.OrgEntriesHaveSlash | gather.py:852-867 | every entry under an organisation holds `/` |
| RepoConfig.OrgPrefixes | gather.py:853-865 | a bare name under `owner` becomes `owner/name`, a dictionary name holding `/` is kept as written, and a dictionary with no truthy name key gives nothing |
| RepoConfig.GroupsEntriesHaveSlash | gather.py:847-868 | every entry of the organisation branch holds `/` |
| RepoConfig.ObjectEntriesHaveSlash | gather.py:841-873 | every entry of an object configuration is of the form `owner/repo` |
| RepoConfig.SkipsNonList | gather.py:849-851 | an organisation whose value is not a list contributes nothing |
| RepoConfig.OrgsOverrideSingle | gather.py:842-868 | once an organisation dictionary is in use, `orgs` first, the single-repository keys are ignored |
| RepoConfig.SingleFallback | gather.py:869-873 | without an organisation dictionary an object yields at most one `owner/repo` entry, with its own branch |
| PerUser.SanitizeFrom | gather.py:693-694 | the substitution leaves only characters of `[A-Za-z0-9_.-]` and never lengthens the name |
| PerUser.SanitizeEffect | gather.py:693-694 | a sanitized name holds only allowed characters, is no longer than the name, and is empty only for the empty name |
| PerUser.SanitizeKeepsAllowed | gather.py:693-694 | a name made only of allowed characters is its own file name |
| PerUser.SanitizeIdempotent | gather.py:693-694 | sanitizing twice is sanitizing once |
| PerUser.SanitizeMerges | gather.py:693-694 | each run of other characters becomes one `_`, so `a b` and `a  b` share the file name `a_b` |
| PerUser.ExtraOf | gather.py:715-737 | commit rows carry message and diff columns; issue and PR rows carry `;`-joined labels and the comment count, and only PR rows carry diff columns |
| PerUser.RowOf | gather.py:706-714 | a row carries the repository, the author and its full name, the item's date and link, and the 1-based milestone index and date |
| PerUser.ItemRows | gather.py:705-738 | one row per list item |
| PerUser.MapContribs | gather.py:700 | one pair per contributor of the map |
| PerUser.Keys | gather.py:703-704 | one key per aggregate entry |
| PerUser.KeysAppend | gather.py:703-704 | registering a new author appends its key last |
| PerUser.Extend | gather.py:738 | appending rows to an author keeps the aggregate's keys and their order |
| PerUser.ExtendNothing | gather.py:738 | appending no rows changes nothing |
| PerUser.ExtendTwice | gather.py:738 | appending rows in two goes equals appending them at once |
| PerUser.AppendRows | gather.py:703-738 | the loop over one contributor's list registers the author if new and appends one row per item, in list order |
| PerUser.ContribsStep | gather.py:698-700 | one more milestone adds its contributor pairs after the earlier ones |
| PerUser.MapContribsStep | gather.py:700 | one more contributor adds its pair last |
| PerUser.AggregateStep | gather.py:700-738 | one more contribution is added on top of the aggregate so far |
| PerUser.MilestoneStep | gather.py:700-738 | one turn of the contributor loop of a milestone |
| PerUser.AggregateMilestone | gather.py:700-738 | the contributor loop of one milestone adds its contributions, in key order |
| PerUser.AggregateRows | gather.py:696-739 | `aggregate(category)` visits milestones in order, contributors in key order and list items in order, giving `AggregateSpec` |
| PerUser.FindRegister | gather.py:703-704 | registering an author adds `{full_name, rows: []}` only when it is absent and changes no other author |
| PerUser.FindExtend | gather.py:738 | appending rows to an author changes only that author's rows |
| PerUser.AggregateFind | gather.py:696-739 | each author's aggregate entry holds the full name of its first contribution and all its rows, milestone by milestone in list order; an author with no contribution has no entry |
| PerUser.AggregateKeys | gather.py:696-739 | the aggregate's keys are the authors in order of first appearance |
| PerUser.FirstAppearanceDistinct | gather.py:703-704 | authors appear once each, and every contributing author appears |
| PerUser.ContribsIndexed | gather.py:698-713 | every row carries a 1-based milestone index within range and that milestone's date |
| PerUser.MapContribsIndexed | gather.py:698-713 | every pair of one milestone carries that milestone's index and date |
| PerUser.EveryContributorListed | gather.py:700-704 | every contributor of every milestone is an aggregate key, even one whose list is empty |
| PerUser.MapContribsMember | gather.py:700 | every contributor of a map gives a pair |
| PerUser.ContribsMember | gather.py:698-700 | every pair of a milestone is among the category's pairs |
| Flatten.CommaJoin | json_to_csv_converter.py:63-65 | `', '.join` of no parts is empty and of one part is that part |
| Flatten.ColumnsOf | json_to_csv_converter.py:28-99 | commit rows carry the message and diff columns, PR rows add the diff columns to the issue ones; a missing text field reads as `''` and a missing number (or a missing `diff`) as 0 |
| Flatten.RowOf | json_to_csv_converter.py:28-34 | a row carries the entry's date as `snapshot_date`, the username, the full name (`''` when missing), and the item's date and link |
| Flatten.ItemsRows | json_to_csv_converter.py:27-38 | one row per item of a contributor's list |
| Flatten.ItemsStep | json_to_csv_converter.py:27-38 | one more item appends its row |
| Flatten.MapStep | json_to_csv_converter.py:26 | one more contributor appends its rows |
| Flatten.DataStep | json_to_csv_converter.py:22 | one more entry appends its rows |
| Flatten.Regroup | json_to_csv_converter.py:38 | appending rows one at a time gives the same table (generic helper, not a model of the cited line) |
| Flatten.RegroupRows | json_to_csv_converter.py:38 | appending rows in groups gives the same table (generic helper, not a model of the cited line) |
| Flatten.AppendUser | json_to_csv_converter.py:27-38 | the item loop appends one row per item of the contributor's list, missing lists counting as empty |
| Flatten.AppendEntry | json_to_csv_converter.py:23-38 | the contributor loop of one entry appends each contributor's rows in key order |
| Flatten.FlattenRows | json_to_csv_converter.py:16-102 | `flatten_commits`/`flatten_issues`/`flatten_prs` produce entries in file order, contributors in key order, items in list order |
| Flatten.MapRowsCount | json_to_csv_converter.py:26-38 | a contributor map gives as many rows as its lists hold items |
| Flatten.FlattenCount | json_to_csv_converter.py:16-102 | exactly one row per recorded item: the row count is the sum of the list lengths |
| Flatten.FlattenAppend | json_to_csv_converter.py:22-38 | flattening two runs of entries gives their tables one after the other |
| Flatten.MapRowsOrigin | json_to_csv_converter.py:26-30 | every row of a map carries the entry's date and one of its contributor keys |
| Flatten.UserRowsOrigin | json_to_csv_converter.py:27-30 | every row of a contributor carries the entry's date and that contributor |
| Flatten.FlattenOrigin | json_to_csv_converter.py:22-38 | every row names some entry's date as `snapshot_date` and a contributor key of that entry |
| Flatten.KeysHas | json_to_csv_converter.py:26 | every contributor of a map is among its keys |
| Flatten.DumpList | gather.py:676-678 | the dumped list has one item per recorded activity |
| Flatten.DumpMap | gather.py:676-678 | the dumped map keeps every contributor, in order, with its dumped list |
| Flatten.Dump | gather.py:676-678 | the dumped file has one entry per milestone |
| Flatten.MapCountItems | gather.py:654-656 | for a map whose counts equal its list lengths, the items read back add up to the `count` fields |
| Flatten.FlattenCountsRecords | json_to_csv_converter.py:121-123 | reading back the file gather.py writes gives, per category, exactly as many rows as the `count` fields add up to |
| Flatten.DumpItemCount | gather.py:654-656 | the items of the dumped file add up to the `count` fields of a well-formed snapshot |
| Flatten.ProcessFile | json_to_csv_converter.py:104-148 | `process_file` reports, per category, the number of recorded items, or `(0, 0, 0)` when reading or writing failed |
| Flatten.ProcessDirectory | json_to_csv_converter.py:150-182 | `process_directory` stops with nothing when the one file asked for does not exist, and otherwise adds up the per-file counts |
| Flatten.TotalsAppend | json_to_csv_converter.py:173-177 | the totals of two batches of files are the sums of their totals |
| Flatten.TotalsCountItems | json_to_csv_converter.py:173-177 | the totals never go negative, and a batch in which every file fails reports no rows |
| Usernames.NormalizeHeader | csv_to_usernames_json.py:18-19 | a normalised header has no surrounding whitespace and is no longer than the original; a missing or empty name normalises to `''` |
| Usernames.NormalizeHeaderIdempotent | csv_to_usernames_json.py:18-19 | normalising twice is the same as normalising once |
| Usernames.NormalizeHeaderIgnoresCase | csv_to_usernames_json.py:18-19 | two headers normalise alike exactly when they differ only in letter case and surrounding whitespace |
| Usernames.LastHeader | csv_to_usernames_json.py:37 | a header found for a key is one of the headers and normalises to that key |
| Usernames.LastHeaderPairs | csv_to_usernames_json.py:37 | in the `{normalize_header(h): h}` dict comprehension the last header with a given normalised form wins |
| Usernames.HeaderLookup | csv_to_usernames_json.py:37-46 | looking a column up through the header map finds the last header that matches it ignoring case and surrounding whitespace |
| Usernames.InferColumns | csv_to_usernames_json.py:54-59 | the inference loop keeps a column already found and otherwise takes the first header that is a common variant of the name |
| Usernames.MatchNonEmpty | csv_to_usernames_json.py:56-58 | a header that matches a variant is not empty, so assigning it makes the column found |
| Usernames.PickStep | csv_to_usernames_json.py:55-59 | one pass of the inference loop, from one header prefix to the next |
| Usernames.MatchTruthy | csv_to_usernames_json.py:54-59 | an inferred column is always a non-empty header |
| Usernames.FirstWhereNone | csv_to_usernames_json.py:54-59 | no column is inferred if and only if no header is a variant |
| Usernames.FirstWhereIsFirst | csv_to_usernames_json.py:54-59 | the inferred column is a matching header and no earlier header matches |
| Usernames.Resolve | csv_to_usernames_json.py:32-62 | column resolution fails on no header row, then on a missing username column, then on a name column that is neither found nor inferable, and otherwise returns the three columns |
| Usernames.ResolveEffect | csv_to_usernames_json.py:44-50 | the username-column error happens exactly when no header matches the username column, and a success has three non-empty column names |
| Usernames.ResolveNamesMissing | csv_to_usernames_json.py:51-62 | with the username column found, the name-column error happens exactly when a name column is neither found nor inferable |
| Usernames.CleanUsername | csv_to_usernames_json.py:69-70 | one leading `@` is dropped and nothing else changes |
| Usernames.RowPair | csv_to_usernames_json.py:66-73 | a row is skipped exactly when its username cell is blank; otherwise it contributes the cleaned username, and a non-empty username gets a non-empty full name |
| Usernames.ReadRow | csv_to_usernames_json.py:66-73 | the body of the row loop computes what each row contributes |
| Usernames.BuildMapping | csv_to_usernames_json.py:64-74 | the row loop builds the dict of the kept `(username, full name)` pairs, in first-insertion order with later values winning |
| Usernames.CollectSkip | csv_to_usernames_json.py:67-68 | a skipped row adds no pair |
| Usernames.CollectAdd | csv_to_usernames_json.py:74 | a kept row adds its pair at the end |
| Usernames.CollectFrom | csv_to_usernames_json.py:64-74 | every kept pair comes from some row |
| Usernames.DictOfStep | csv_to_usernames_json.py:74 | `mapping[uname] = full` on the dict of a list of pairs is the dict of the list with that pair added |
| Usernames.CsvToUsernames | csv_to_usernames_json.py:22-74 | the conversion reports the resolution error if there is one, and otherwise the mapping of the rows |
| Usernames.MappingLastWins | csv_to_usernames_json.py:64-74 | the value mapped for a username is the one from its last row that has a username |
| Usernames.KeptPairsNames | csv_to_usernames_json.py:73 | every kept pair with a non-empty username has a non-empty full name |
| Usernames.MappingNamesNonEmpty | csv_to_usernames_json.py:73-74 | every non-empty username in the mapping maps to a non-empty full name, falling back to the username when both name cells are blank |
| Usernames.LastValueIn | csv_to_usernames_json.py:74 | the value a dict holds for a key is one of the pairs assigned to that key |

## Left out

- HTTP requests, authentication (`setup_github_auth`) and the GitHub API are not called. Responses are parameters: sequences of pages, and a function from attempt number to outcome.
- `time.sleep`, the back-off lengths, timeouts and progress bars (`tqdm`) are not modelled. Only which request comes next is modelled.
- Logging (`setup_logger`, every `logging.*` call) and `print` output are not modelled.
- Reading and writing files is not modelled. This covers the JSON/TOML loading of `load_date_config*`, the file checks of `main`, `write_csv`, the pandas CSV and Excel writers, and the JSON output of the username map. A write is recorded as the value written.
- `datetime` parsing and `strftime` are not modelled. Dates are integer timestamps, and the display string is represented by the shifted timestamp, which orders the same.
- The co-author regex over a commit message is a parameter function, message to names.
- combine_files.py is not part of this model.
- The file-name collisions of `sanitize` are not modelled. Two authors whose names sanitise alike share one file, and the later write overwrites the earlier. `PerUser.SanitizeMerges` exhibits such a pair.
- JSON `null` and a missing key are one case: both read as `None`. `body: null` and `body: ''` both give an empty description.
- Non-string configuration values (numbers, nested lists where strings are expected) are not modelled. Fields are strings or missing.
- Dates.ParseInt: `int()` on the `--since` parts accepts surrounding whitespace, an optional sign and ASCII digits only. Python also accepts underscores between digits and non-ASCII decimal digits.
- Text.LowerChar: only A-Z are lower-cased. Python's `str.lower()` also maps non-ASCII letters.
- `main`'s early return when no valid repositories remain is not modelled, and neither are the exits of csv_to_usernames_json.py for a missing CSV file.
- The directory listing of `process_directory` is a parameter: the list of files in listing order, each with whether it loaded and saved.
- Collect.CommitsRun: runs the corrected rate-limit retry (a wait under 300 s repeats the page). The source as written ends the loop on that answer; that loop is `Collect.CommitsRunAsWritten`, and the two agree whenever no short rate-limit wait arrives (`Collect.CommitsRunAgree`).
- Collect.CommitsRunErrors: its first clause states the corrected retry, which the source as written never takes.
- Collector.CommitsRunUnfold: unfolds the corrected loop, retry branch included.
- Collector.Collection.GatherCommits: ends where the corrected `Collect.CommitsRun` says, so it repeats a rate-limited page that the source as written abandons.
- Repository.GatherRepoSpec: gathers commits with the corrected loop, and so do `Repository.GatherRepo`, `Repository.ProcessRepos` and the lemmas about them.

## Findings

| source | as written | input that shows it | evidently intended | confidence | as-written member | corrected member |
|---|---|---|---|---|---|---|
| gather.py:417-418 | `if hasattr(e, 'response') and e.response:` guards the wait on a 403 "rate limit exceeded" | an `HTTPError` raised by `raise_for_status` for a 403 rate-limit response: a `Response` with status 400 or more is falsy, so the guard fails and the page loop breaks; a short wait followed by a non-empty page is abandoned as written and gathered when corrected (`Collect.RateLimitDiffers`) | wait for the reset (when under 300 s) and request the same page again | not executed | Collect.CommitsRunAsWritten | Collect.CommitsRun |
