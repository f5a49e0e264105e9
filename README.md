# adrian: the CaseFile repository, modelled in Dafny

adrian watches one record of the Romanian courts' portal: a case file, looked up by its
file number, or a search by party name. Each watched record has its own local directory.
That directory holds two files:

- `.pmr`, a marker of five `key=value` lines: `type`, `repoVersion`, `criteria`, `version`, `ackVersion`;
- `data.repr`, a pickled snapshot of the last response, normalised into nested dictionaries, lists and strings.

`CaseFile` is the class that owns that directory:

- `create_repo` checks the file number. It refuses a directory that already holds a marker. Otherwise it writes a marker with `version = ackVersion = 0`.
- `load_repo` parses the marker. It refuses any `repoVersion` other than 2.
- `update_repo` normalises the service's answer and compares it with the stored snapshot. On a change it adds one to `version` and rewrites both files.
- `mark_repo` acknowledges the current version.
- `has_unread_info` reports `ackVersion < version`.

The class exists in two revisions, `adrian.py` and the older `adrian/adrian.py`, and they differ only in `update_repo`:

- `adrian.py` treats an empty response (`not data`) as no data. A missing snapshot counts as a change.
- `adrian/adrian.py` tests only `data == None`. A missing snapshot raises `IOError`.

The model has six modules:

- `FileId`: `_validate_id`, the prefix match of `\d+/\d+/\d{4}`, written as a hand matcher. It is proved equal to a declarative reading of the pattern.
- `Marker`: the marker text. It covers `_update_repo_info`'s serialiser, Python's line iteration, `l[0:-1]`, `split('=', 1)`, `int()`, the dictionary-filling loop of `load_repo` (an imperative method), and the decoding in `load_repo`'s order. It proves the round trip.
- `Normalizer`: `_pickle_suds`, as an imperative method with loops over fields and list slots. The method is proved equal to a recursive function, which is proved to keep the shape of the response.
- `Lifecycle`: the two counters as a pure state machine, and the update decision of both revisions.
- `Repository`: the file system, as a `Store` object with directories, marker texts and snapshots. `CaseFile` is a class with create, load, update, mark and the unread query.
- `Wrappers` and `Errors`: `Option`, `Result`, and the exceptions as values.

In these details the model follows the code as written:

- The marker keys are `type`, `repoVersion`, `criteria`, `version`, `ackVersion`, in that order.
- On a change, the marker is rewritten before the snapshot.
- `mark_repo` tests `version != ackVersion`, not `<`.
- The two revisions really do differ on a missing snapshot. Each is modelled as it is written.

## Model

| member | source | states |
|---|---|---|
| `FileId.ValidateIdMeansPrefixMatch` | adrian.py:230-232 | the matcher accepts a string exactly when it starts with digits, '/', digits, '/', four digits (`re.match` anchors only at the start), both directions |
| `FileId.ExtendingKeepsValid` | adrian.py:68 | being a prefix match, any text appended to an accepted file number is still accepted |
| `FileId.AcceptsSampleNumber` | adrian/adrian.py:224-226 | `"123/2024/0001"` is a valid file number |
| `FileId.AcceptsTrailingText` | adrian/adrian.py:65 | `"1/2/2024x"` is accepted, trailing `x` and all |
| `FileId.RejectsName` | adrian.py:106-108 | `"abc"` is not a file number, so creating a file-type repository with it fails |
| `FileId.DigitRunExact` | adrian.py:232 | a greedy `\d+` consumes exactly the digits up to the first non-digit, so the matcher needs no backtracking |
| `Marker.ParseIntInvertsIntToText` | adrian.py:135-144 | `int()` applied to the decimal text `'{}'.format(n)` writes gives back `n`, for every integer, negative ones included |
| `Marker.ParseIntExamples` | adrian/adrian.py:132 | `int()` accepts surrounding white space and a sign, and refuses the empty string and trailing letters |
| `Marker.LinesConcat` | adrian.py:131-132 | iterating over the marker file's lines loses no text: the lines joined are the file |
| `Marker.LinesTerminated` | adrian/adrian.py:129 | every line but the last ends with the newline that `l[0:-1]` then removes |
| `Marker.SplitOnce` | adrian.py:133 | `split('=', 1)` yields a key and a value exactly when the line holds a '='; the key holds no '=' and key, '=', value rebuild the line |
| `Marker.SplitOnceOfEntry` | adrian/adrian.py:130 | a line `key=value` splits back into that key and that value even when the value contains '=' |
| `Marker.ReadInfo` | adrian/adrian.py:127-130 | the loop fills the dictionary line by line, later keys overwriting earlier ones, and fails on the first line without '=' |
| `Marker.Decode` | adrian.py:135-145 | `repoVersion` is read and checked first: missing, not an integer, or not 2 fails with that error before any other key is read; a decoded repository's stored repoVersion parses to 2, and its fields are exactly the dictionary's criteria and parsed type, version and ackVersion; conversely, any dictionary (whatever its key order or extra keys) with repoVersion 2 and criteria, type, version and ackVersion present and the three counters integers decodes successfully |
| `Marker.CollectEntries` | adrian/adrian.py:214-222 | reading back lines written as `key=value\n` performs the same dictionary updates in the same order |
| `Marker.EntriesAppend` | adrian.py:224-228 | writing two groups of lines one after the other gives the concatenation of their texts |
| `Marker.ReadBackFields` | adrian.py:131-133 | the dictionary read from a serialised marker holds the five written fields |
| `Marker.DecodeFields` | adrian/adrian.py:132-142 | decoding the five written fields returns the written repository when repoVersion is 2 and an unsupported-version failure otherwise |
| `Marker.LoadInvertsSerialize` | adrian.py:220-228 | round trip: loading what `_update_repo_info` wrote returns the same type, criteria, version and ackVersion for newline-free criteria, and an unsupported-version failure when repoVersion is not 2 |
| `Marker.CollectSplitValue` | adrian/adrian.py:220 | a value containing a newline ends its line early, and a remainder without '=' is a malformed line |
| `Marker.NewlineInCriteriaBreaksLoad` | adrian.py:226 | the newline restriction of the round trip is necessary: criteria `a\nb` (no '=' in `b`) make the marker unloadable |
| `Normalizer.PickleSuds` | adrian.py:234-250 | the loop over fields and list slots computes exactly the recursive normal form |
| `Normalizer.NormalizeObject` | adrian/adrian.py:228-244 | the normalised object is a dictionary with the response's key set |
| `Normalizer.NormalizeValue` | adrian.py:239-248 | a list keeps its length, a nested object its keys, text becomes its encoding, any other scalar its `str` |
| `Normalizer.NormalizePreservesShape` | adrian/adrian.py:232-242 | at every depth: same keys in every object, same length for every list, a string at every leaf |
| `Normalizer.NormalizeValuePreservesShape` | adrian.py:239-243 | the same for a single field value: lists element by element, nested objects recursively |
| `Lifecycle.NewsIsUnread` | adrian/adrian.py:183-191 | when `0 <= ackVersion <= version`, what `mark_repo` reports (`!=`) is exactly `has_unread_info` (`<`) |
| `Lifecycle.Step` | adrian.py:180-194 | a changed update adds exactly 1 to version and leaves ackVersion; an unchanged update changes nothing; mark sets ackVersion to version; type, criteria and repoVersion never change |
| `Lifecycle.ReplayKeepsOrdered` | adrian/adrian.py:174-188 | any sequence of updates and marks keeps `0 <= ackVersion <= version` |
| `Lifecycle.ReachableIsOrdered` | adrian/adrian.py:113-114 | every state reachable from a newly created repository has `0 <= ackVersion <= version` |
| `Lifecycle.VersionCountsChanges` | adrian.py:180-181 | after any sequence of events, version equals its start value plus the number of changed fetches; criteria and type are unchanged |
| `Lifecycle.ReadUntilNextChange` | adrian.py:217-218 | after a mark, nothing is unread until the next changed fetch |
| `Lifecycle.ChangeMakesUnread` | adrian/adrian.py:211-212 | a changed fetch on a consistent repository leaves unread information |
| `Lifecycle.EmptyResponse` | adrian.py:162 | an empty response counts as "no data" in adrian.py (`not data`) but is processed in adrian/adrian.py (`data == None`) |
| `Lifecycle.Decide` | adrian.py:167-178 | the first fetch is always a change; the answer is "unchanged" exactly when version is not 0 and the stored snapshot equals the new one; it fails exactly in the earlier revision when the snapshot is missing (adrian/adrian.py:164-172), and then with an unreadable-snapshot failure |
| `Lifecycle.SameDataTwiceIsNoChange` | adrian/adrian.py:164-172 | once a response was stored by a change, the identical response is no change, in both revisions |
| `Repository.Store.RepoExists` | adrian.py:95-100 | a repository exists exactly when its directory holds a `.pmr` marker |
| `Repository.CaseFile.constructor` | adrian.py:81-93 | a `CaseFile` holds exactly the given path, type, criteria and counters |
| `Repository.CaseFile.HasUnreadInfo` | adrian.py:217-218 | unread implies `mark_repo` would report news, and for ordered counters the two coincide |
| `Repository.CaseFile.UpdateRepoInfo` | adrian.py:220-228 | the marker of this path is replaced by the serialised fields; no other file changes |
| `Repository.CaseFile.CreateRepo` | adrian.py:102-119 | an invalid file number fails first and writes nothing; an existing marker then fails with AlreadyExists and writes nothing; otherwise a fresh repository with version 0, ackVersion 0, repoVersion 2 is returned, its directory exists and its marker is written at once |
| `Repository.CaseFile.LoadRepo` | adrian.py:121-147 | no marker gives `None`; a marker that does not decode (including repoVersion not 2) fails without building a repository; otherwise the repository holds exactly the decoded fields |
| `Repository.CaseFile.UpdateRepo` | adrian.py:149-187 | without data nothing changes and the answer is false; otherwise the answer is the decision on the normalised response; on a change version grows by exactly 1 and marker and snapshot are rewritten; otherwise no file changes |
| `Repository.CaseFile.MarkRepo` | adrian.py:189-197 | returns `version != ackVersion` as it was before the call, then ackVersion equals version and nothing is unread; the marker is rewritten only when it returned true |
| `Repository.UpdateTwice` | adrian/adrian.py:146-181 | two updates with the same response: the second reports no change, and the version moved only if the first reported a change |
| `Repository.CreateUpdateMark` | adrian/adrian.py:99-116 | create, a first update and a mark leave version 1 and ackVersion 1; the marker on disk loads back to exactly those counters, and nothing is unread |

## Left out

- The SOAP call `client.service.CautareDosare` is a network call, so it is an input of `UpdateRepo`. A call that raised is that input set to `None`. The logged exception and the "Can't retrieve data" message are not modelled. Building the client (`Client(self._conf.service_url)`) happens outside the `try`, so a failure there leaves `update_repo` with an exception and nothing written; that failure is not modelled.
- Leaf stringification (`value.encode('UTF-8')` and `str(value)`) is passed in as two function parameters. Encodings are not modelled.
- `PickleSuds` builds a new tree. The Python code also overwrites the response's own lists in place. That mutation of the caller's object (aliasing) is not modelled.
- A list field is modelled as a list of objects, because `asdict` is applied to every element.
- The pickle byte format is not modelled. `Store.Snapshot` is a map lookup that stands for `pickle.load` of `data.repr`: the file holds the normalised tree itself, so only a missing file is unreadable. A corrupt pickle, and the exceptions other than `IOError` it would raise, are not modelled.
- The real file system is a `Store` object holding directories, marker texts and snapshots. Not modelled: parent directories made by `makedirs`, permissions, failed or partial writes, and a crash between the marker write and the snapshot write.
- `ParseInt` models Python 2 `int()` on base-10 text: surrounding white space, an optional sign, then ASCII digits. Other spellings `int()` accepts are not modelled.
- The `conf` argument and `Configuration` (service URL, SMTP settings) are left out. They only reach the SOAP client. The `Configuration.create()` fallback in `create_repo` is never reached from `main`, which always passes a loaded configuration.
- `dump_repo` / `dumpRepo` are left out: they only print and pretty-print.
- `send_mail`, `test_mail` and `notify` are left out: they are SMTP and console output.
- `Configuration.load`, `parse`, `init_console`, `init_log` and `main` are left out: they are configuration files, option parsing, logging and command dispatch.
- `_unpickle_suds` and `_dump_response` are left out: they are never called, and they depend on the suds factory and client.
- `adrian/setup.py` is left out: it is packaging.
- Concurrent use of one directory by several processes is not modelled. The program assumes one invocation at a time.
