# Land-claim snapshot checker: verified model of its core

The checker polls a web map for land claims and stores each poll as a snapshot. Each snapshot is a list of claim records: id, name, balance, chunk count, players, polygon coordinates and marker image URL. It then compares the two most recent snapshots to report the claims that disappeared and the ones that appeared.

This project models the three pieces of `main.py` that contain logic, and proves properties of them. Each file below has one module, except `claims.dfy`, which holds two.

- `claims.dfy` holds two modules:
  - `Options`, the optional value that an HTML lookup yields;
  - `ClaimModel`, the claim record with the helper predicates on lists of claims.
- `keyed.dfy`, module `KeyedClaims`, models the dict comprehension `{claim['id']: claim for claim in claims}`, with Python's dict semantics made explicit:
  - there is one entry per distinct id;
  - entries are in the order in which the ids first occur;
  - each entry is the last claim with that id.

  Ids are not required to be unique. When they are, the dict is the list itself (`ByIdOfDistinct`).
- `reconcile.dfy`, module `Reconciler`, models `compare_claims`.
  - The method `Reconcile` builds the two dicts.
  - The method `CompareDicts` runs the two loops, with the `coordinates_match` flag and the `break`.
  - Both are proved equal to the specification functions `Removed` and `Added`.
  - The lemmas state what the two lists are: soundness, completeness, the asymmetry between the sides, order, and size.
- `latest.dfy`, module `SnapshotSelection`, models `get_latest_log_files` as a pure function over the folder listing:
  - it filters the `.json` names;
  - it sorts them descending in Python's string order;
  - it takes the first two.
- `extract.dfy`, module `Extractor`, models the record-building loop of `parse_claims_from_json`:
  - the marker URL;
  - `str.strip()`;
  - `split(': ')[1]` and the `IndexError` fallback to each field's default;
  - the removal of `,` and `$` from the balance.

  The HTML search `soup.find` is not modelled. What it found for each field is an `Option<string>` input (`Area`).

## Model

| member | source | states |
|---|---|---|
| Reconciler.Removed | main.py:76-98 | the first list `compare_claims` returns: the older dict's vanished entries, in dict order; pinned down by `RemovedIsSound`, `RemovedIsComplete` and `ReconcilePreservesOrder` |
| Reconciler.Added | main.py:76-98 | the second list `compare_claims` returns: the newer dict's entries with a new id, in dict order; pinned down by `AddedIsExact` and `ReconcilePreservesOrder` |
| Reconciler.RemovedFrom | main.py:83-92 | the outer loop over the older dict, appending each vanished entry in turn; membership is `RemovedFromMembers`, order `RemovedFromEmbeds` |
| Reconciler.AddedFrom | main.py:94-96 | the loop over the newer dict, appending each entry whose id the older dict lacks; membership is `AddedFromMembers`, order `AddedFromEmbeds` |
| Reconciler.Vanished | main.py:84-91 | an older entry is reported when its id is not a key of the newer dict and no newer value has equal coordinates, the condition under which `coordinates_match` stays false |
| Reconciler.Reconcile | main.py:76-98 | the two returned lists are exactly `Removed(old, new)` and `Added(old, new)`, over the dicts built from both lists |
| Reconciler.CompareDicts | main.py:80-98 | the removal loop (with the coordinate scan, which stops at the first match) and the addition loop produce exactly `RemovedFrom(oldDict, newDict)` and `AddedFrom(newDict, ids of oldDict)` |
| Reconciler.RemovedFromMembers | main.py:83-92 | a claim is in the removed list iff it is an older dict entry whose id is absent from the newer dict and whose coordinates equal those of no newer entry |
| Reconciler.AddedFromMembers | main.py:94-96 | a claim is in the added list iff it is a newer dict entry whose id the older dict lacks |
| Reconciler.RemovedIsSound | main.py:84-92 | every removed claim is the entry the older list keeps for its id; its id is absent from the newer list; no claim of the newer dict has its coordinates |
| Reconciler.RemovedIsComplete | main.py:83-92 | conversely, every such older entry whose id is gone and whose coordinates match no newer entry is reported removed |
| Reconciler.AddedIsExact | main.py:94-96 | a claim is added iff it is an entry of the newer dict whose id the older list lacks; there is no coordinate check on this side |
| Reconciler.CoordinateMatchSuppressesRemoval | main.py:86-91 | an older entry whose coordinates equal those of some newer entry is never reported removed, whatever that entry's id |
| Reconciler.RenamedClaimIsOnlyAdded | main.py:83-96 | old `[A]` and new `[B]` with different ids and equal coordinates give `removed == []` and `added == [B]` |
| Reconciler.ClaimRemovedFromEmptySnapshot | main.py:83-92 | a claim compared against an empty newer snapshot is reported removed and nothing is added |
| Reconciler.ReplacedEntryIsNotMatched | main.py:78-91 | when a newer claim with the matching coordinates is overwritten in the dict by a later claim with the same id, the older claim is still removed and only the later claim is added |
| Reconciler.NothingVanishes | main.py:83-92 | when every older entry's id is present in the newer dict, nothing is removed |
| Reconciler.NothingAppears | main.py:94-96 | when every newer entry's id is among the older ids, nothing is added |
| Reconciler.ReconcileSelfIsEmpty | main.py:83-96 | reconciling a snapshot with itself reports nothing removed and nothing added |
| Reconciler.AllVanish | main.py:83-92 | when no older entry's id or coordinates occur in the newer dict, every older entry is removed, in order |
| Reconciler.AllAppear | main.py:94-96 | when no newer entry's id occurs among the older ids, every newer entry is added, in order |
| Reconciler.DisjointSnapshots | main.py:76-98 | with disjoint ids and no shared coordinates, `removed` is the whole older dict and `added` the whole newer dict |
| Reconciler.RemovedFromEmbeds | main.py:83-92 | the removed list picks older dict entries at strictly increasing positions |
| Reconciler.AddedFromEmbeds | main.py:94-96 | the added list picks newer dict entries at strictly increasing positions |
| Reconciler.EmbeddingIsShorter | main.py:83-96 | a list embedded in another is no longer than it |
| Reconciler.ReconcilePreservesOrder | main.py:77-96 | `removed` is a subsequence of the older dict and `added` of the newer dict, so `removed` has at most as many claims as there are distinct older ids, and `added` at most as many as there are distinct newer ids |
| Reconciler.ReconcileDistinctIds | main.py:76-98 | with distinct ids on both sides, a claim is removed iff it is in the older list, its id is not in the newer list and its coordinates match no newer claim; it is added iff it is in the newer list and its id is not in the older list |
| KeyedClaims.Put | main.py:77-78 | one key assignment in an insertion-ordered dict: an existing key keeps its position and takes the new value, a new key goes last; stated by `PutSpec` and `PutKeepsOrder` |
| KeyedClaims.ById | main.py:77-78 | the dict comprehension as one `Put` per claim, in list order; stated by `ByIdIsDict`, `ByIdOrder` and `ByIdSize` |
| KeyedClaims.ByIdIsDict | main.py:77-78 | the dict has distinct keys, exactly the ids of the list, and each entry is the last claim of the list with its id |
| KeyedClaims.ByIdOrder | main.py:77-78 | the dict's entries are in the order in which their ids first occur in the list |
| KeyedClaims.ByIdOfDistinct | main.py:77-78 | when the ids are distinct, the dict holds the list itself, in order |
| KeyedClaims.ByIdOfOverwrite | main.py:77-78 | two claims with one id give a dict holding only the second |
| KeyedClaims.ByIdSize | main.py:77-78 | the dict has as many entries as the list has distinct ids, and no more than the list has claims |
| KeyedClaims.PutSpec | main.py:77-78 | assigning a key keeps the keys distinct, adds the key, and replaces exactly the former entry for it |
| KeyedClaims.PutKeepsOrder | main.py:77-78 | one more assignment keeps the entries in first-occurrence order |
| KeyedClaims.PositionOf | main.py:77-78 | the position returned is that of the first claim with the id, or the length when there is none |
| KeyedClaims.LastIndexOf | main.py:77-78 | the position returned holds a claim with the id, and no later position does |
| ClaimModel.SameCoordinates | main.py:88 | `old_claim['coordinates'] == new_claim['coordinates']`: both the `x` lists and the `z` lists are equal |
| ClaimModel.DistinctIdsCount | main.py:77-78 | a list with distinct ids has exactly as many ids as claims |
| KeyedClaims.IdSetSize | main.py:77-78 | a list has no more distinct ids than claims |
| SnapshotSelection.LatestTwo | main.py:100-105 | `get_latest_log_files` on a folder listing: `NotEnough` for `(None, None)`, otherwise the first two names after the descending sort; stated by `LatestTwoNotEnough`, `LatestTwoPicksNewest` and `LatestTwoIgnoresListingOrder` |
| SnapshotSelection.EndsWithJson | main.py:101 | `f.endswith('.json')`: the last five characters are `.json` |
| SnapshotSelection.LexLe | main.py:102 | Python's string comparison, code point by code point, with a proper prefix first; a total order by `LexLeTotal`, `LexLeTransitive` and `LexLeAntisymmetric` |
| SnapshotSelection.InsertDesc | main.py:102 | one insertion step of the descending sort: the result is the input plus `x`, as a multiset, and stays descending by `InsertDescSorted` |
| SnapshotSelection.JsonNames | main.py:101 | the filtered list holds every listed name ending in `.json`, as often as it is listed, and no other name |
| SnapshotSelection.SortDesc | main.py:102 | the sorted list is a permutation of its input |
| SnapshotSelection.SortDescSorted | main.py:102 | the sorted list is in descending string order |
| SnapshotSelection.InsertDescSorted | main.py:102 | inserting into a descending list keeps it descending |
| SnapshotSelection.SortedDescUnique | main.py:102 | two descending lists with the same elements are equal, so the sort's result depends only on the names, not their order |
| SnapshotSelection.LexLeTotal | main.py:102 | Python string order is total |
| SnapshotSelection.LexLeTransitive | main.py:102 | Python string order is transitive |
| SnapshotSelection.LexLeAntisymmetric | main.py:102 | two names each at most the other are equal |
| SnapshotSelection.LatestTwoNotEnough | main.py:103-104 | `(None, None)` is returned exactly when fewer than two names end in `.json` |
| SnapshotSelection.LatestTwoPicksNewest | main.py:100-105 | otherwise the two names both end in `.json` and are two listed entries; the first is at least the second and at least every `.json` name; every other `.json` name is at most the second |
| SnapshotSelection.FirstTwoAreGreatest | main.py:102-105 | in a descending list the first element is at least every element, and the second is at least every element except those two |
| SnapshotSelection.LatestTwoIgnoresListingOrder | main.py:101-105 | the result depends only on which names are listed, not on the order the listing gives them in |
| Extractor.ExtractedFrom | main.py:50-61 | the `claim_info` dict built from one area: its id and coordinates, the marker URL, and the cleaned name, balance, chunks and players |
| Extractor.CleanedName | main.py:20-21 | `name_element.text.strip()` when the `span` exists, `"Unknown"` otherwise |
| Extractor.CleanedField | main.py:21-46 | a field that keeps its default when the element is missing or `split(': ')[1]` raises `IndexError`, and is the stripped second piece otherwise; stated by `CleanedFieldBetweenSeparators` and `CleanedFieldDefaults` |
| Extractor.SecondPiece | main.py:21-46 | `split(': ')[1]`: the text between the first `': '` and the next one, or the end; `None` where there is no `': '`, which is the `IndexError` |
| Extractor.ParseClaims | main.py:13-62 | there is one record per area, in the areas' order, and record `i` is the one built from area `i` |
| Extractor.ExtractClaim | main.py:16-61 | the record has the area's key as id and its coordinates copied. Its URL is the fixed marker prefix, then the id, then `.png`. Its name, balance, chunks and players are the cleaned or defaulted fragments |
| Extractor.ReadBalance | main.py:24-30 | starting from `"0"` and overwriting unless the lookup fails or `split(': ')[1]` raises `IndexError` yields `CleanedBalance` |
| Extractor.ReadField | main.py:33-48 | the same guarded overwrite, for chunks and players with their defaults, yields `CleanedField` |
| Extractor.CleanedFieldBetweenSeparators | main.py:28-46 | a fragment whose first `': '` starts at `i` and whose next one starts at `j` (or that has none after, with `j` its length) yields the stripped text between them; the balance yields that text without `,` and `$` |
| Extractor.CleanedFieldDefaults | main.py:24-48 | with no fragment, or no `': '` in it, each field keeps its default (`"0"`, or `"Unknown"` for players) |
| Extractor.CleanedBalance | main.py:24-30 | the cleaned balance contains no `,` and no `$` |
| Extractor.BalanceText | main.py:28 | the text after the label, stripped, keeps every character except `,` and `$` as often as it occurs, and contains neither; it is `Unformatted` of the stripped text, so the kept characters stay in their order |
| Extractor.Unformatted | main.py:28 | `replace(',', '').replace('$', '')` leaves no `,` and no `$` and keeps every other character as often as it occurs |
| Extractor.UnformattedAppend | main.py:28 | removing `,` and `$` from a concatenation gives the concatenation of the cleaned parts, so the kept characters stay in their order |
| Extractor.UnformattedOne | main.py:28 | on one character, removing `,` and `$` yields nothing for those two and the character itself for any other |
| Extractor.Without | main.py:28 | `replace(ch, '')` leaves no `ch`, keeps every other character as often as it occurs, and changes nothing when there is no `ch` |
| Extractor.WithoutCons | main.py:28 | `replace(ch, '')` drops or keeps the first character and cleans the rest on its own |
| Extractor.WithoutAppendStep | main.py:28 | putting one character in front keeps the concatenation law of `replace(ch, '')` |
| Extractor.WithoutAppend | main.py:28 | `replace(ch, '')` on a concatenation is the concatenation of the cleaned parts, so the kept characters stay in their order |
| Extractor.WithoutOne | main.py:28 | on one character, `replace(ch, '')` yields nothing for `ch` and the character itself otherwise |
| Extractor.FindSeparator | main.py:28-46 | the position returned is the leftmost `': '` at or after the start, and there is none before it; `None` means there is none at all |
| Extractor.FindSeparatorIsFirst | main.py:28-46 | the search finds the first separator at or after the start position |
| Extractor.FindSeparatorNone | main.py:28-46 | the search finds nothing where there is no separator |
| Extractor.IsSpace | main.py:21-46 | the characters Python's `str.isspace()` accepts, which `strip()` removes |
| Extractor.Strip | main.py:21-46 | `str.strip()` as `rstrip()` after `lstrip()`; its result is the trimmed middle by `StripIsTrimmedMiddle` |
| Extractor.StripStart | main.py:21-46 | `lstrip()` leaves a suffix, removes only whitespace, and leaves no leading whitespace |
| Extractor.StripEnd | main.py:21-46 | `rstrip()` leaves a prefix, removes only whitespace, and leaves no trailing whitespace |
| Extractor.StripIsTrimmedMiddle | main.py:21-46 | `strip()` of whitespace, a middle whose ends are not whitespace, and whitespace, in that order, is exactly the middle |
| Extractor.StripStartAt | main.py:21-46 | `lstrip()` cuts exactly the whitespace before the middle, or everything when the middle is empty |
| Extractor.StripEndAt | main.py:21-46 | `rstrip()` of what follows the leading whitespace cuts exactly the whitespace after the middle |

`compare_claims` follows the code as written. An older claim suppressed by a coordinate match is not reported removed. The newer claim that matched it is still reported added when its id is new (`RenamedClaimIsOnlyAdded`).

Both results are ordered lists, in dict order. They are not order-irrelevant sets, so order and size are proved for them (`ReconcilePreservesOrder`).

`get_latest_log_files` returns either `(None, None)` or a pair. The result is modelled as the datatype `LatestLogs`: `NotEnough`, or `Latest(newest, previous)`.

Python compares strings code point by code point, and a proper prefix comes first. This is the predicate `LexLe`. `sort(reverse=True)` is modelled by an insertion sort into descending order; `SortedDescUnique` makes the choice of sort irrelevant. Two descending permutations of the same names are equal, so any correct sort gives the same first two names.

## Left out

- The network fetch (`fetch_json_data`, main.py:8-10): I/O. The model starts from the decoded areas.
- HTML parsing with BeautifulSoup and `soup.find` (main.py:17, 20, 25, 34, 43): a foreign library. What each lookup finds is an `Option<string>` field of `Area`.
- The lookup `data['sets']['me.angeschossen.lands']['areas']` (main.py:14) and the `KeyError` it raises on another shape: JSON navigation. The model receives the areas as a sequence, in the dict's iteration order. The per-area lookups `claim_data['desc']`, `claim_data['x']` and `claim_data['z']` (main.py:16, 57-58) raise `KeyError` when an area lacks one of those keys. The `Area` datatype always has all three, so the model rules this failure out by construction.
- `float(balance_str)` and `int(chunks_str)` (main.py:53-54): floating point, and a conversion whose `ValueError` is not caught. A non-numeric fragment therefore stops the whole extraction. A malformed field is meant to fall back to its default while the rest of the batch continues; for these two conversions the code does not do that. The model keeps the cleaned strings the conversions would receive.
- The diagnostic `print` calls on the `IndexError` paths (main.py:30, 39, 48): output only. The fallback to the default is modelled.
- `save_claims`, `load_claims` and `os.path.exists` (main.py:66-74): file I/O and JSON encoding.
- `os.listdir`, `os.makedirs`, `datetime.now`, the timestamped file names, the summary log and the `while True` / `time.sleep` poll loop (main.py:101, 107-147): directory access, clock and scheduling. The folder listing is the parameter `files` of `LatestTwo`.
- The unbound `added_claims`/`removed_claims` at main.py:142 when fewer than two snapshots exist: part of the poll loop.
- The overlay renderer (`draw removed claims.py`, `map zzzzz with lands.py`): image drawing and floating-point transforms, outside the core.
- Extractor.ParseClaims: the areas are a sequence, so distinct keys are not enforced. The JSON text may repeat a key, but the Python dict that `json.loads` builds keeps one entry per key, the last one; the model does not impose that. Each record's id is its area's key, position by position.
