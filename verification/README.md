# feed-checker in Dafny

feed-checker takes a list of GTFS feed URLs and reports which of them two
registries know about. The registries are transitland and transitfeeds.
The URLs come from one of three places: a single `--url`, a CSV file with
one URL per line, or the YAML agency manifest. The program builds a
`results` dict that maps each raw URL to one status per registry, with
manifest metadata in YAML mode. It then walks each registry's list of
`(public_web_url, url)` pairs and marks the listed URLs as present. Last,
it splits the URLs into matched and missing and prints a summary.

The project models that logic as pure functions and two small loops:

- `Query`: `clean_url`. A URL is a six-component record and its query is
  a list of decoded `key=value` pairs. The function groups the query as
  `parse_qs(keep_blank_values=True)` does, pops `api_key` and `token`,
  and re-encodes one pair per value as `urlencode(doseq=True)` does.
- `Entries`: the `results` dict, as an insertion-ordered list of items
  with distinct keys. Assigning to an existing key keeps its position and
  replaces its value.
- `Text`: `str.strip()` and `str.splitlines()`, which turn the CSV text
  into lines.
- `Loader`: the input-mode priority and the three loaders. This includes
  the YAML walk with its skipped falsy URLs and its `KeyError`s.
- `Matcher`: one registry pass.
- `Report`: the missing/matched partition, the summary choice, and `main`
  from start to finish (`Report.Run`).

Two details of the code shape what the model does:

- `clean_url` is defined but `main` never calls it. A registry URL is
  compared with the raw `results` key by exact string equality, so the
  model applies no normalisation when loading or matching
  (`Matcher.PassOnlyAdds`).
- Only the two ends of the CSV text are stripped before it is split into
  lines, so a blank line between two URLs becomes the key `""`
  (`Text.InteriorBlankLineKept`).

## Model

| member | source | states |
|---|---|---|
| Query.CleanQuery | feed_checker.py:14-17 | After cleaning, every credential key has no values and every other key has exactly its original values, blank ones included, in their original order and number. No pair has the key `api_key` or `token`. Keys come in first-occurrence order. |
| Query.CleanUrl | feed_checker.py:12-18 | Scheme, netloc, path, params and fragment are unchanged. The query changes exactly as CleanQuery states. |
| Query.CleanQueryIdempotent | feed_checker.py:14-17 | Cleaning an already-cleaned query gives the same pair list. |
| Query.CleanUrlIdempotent | feed_checker.py:12-18 | clean_url applied twice equals clean_url applied once, on the parsed record. |
| Query.GroupInvariant | feed_checker.py:14 | The parse_qs grouping has distinct keys and a non-empty list per key. Each key's list is exactly that key's values in query order. Keys appear in the order of their first occurrence. |
| Query.Group | feed_checker.py:14 | parse_qs as a fold over the pairs. Its contract is carried by `Query.GroupInvariant`: distinct keys, a non-empty list per key holding that key's values in query order, keys in first-occurrence order. |
| Query.LookupDrop | feed_checker.py:15-16 | Popping the two credential keys removes their lists and leaves every other key's list as it was. |
| Query.DropKeepsOrder | feed_checker.py:15-16 | Popping keys keeps the remaining keys in first-occurrence order. |
| Query.DropWellFormed | feed_checker.py:15-16 | Popping keys keeps the keys distinct and every list non-empty. |
| Query.DropSubset | feed_checker.py:15-16 | Popping keeps only fields that were already there, leaves no credential key, and changes nothing when there was none. |
| Query.DropCredentials | feed_checker.py:15-16 | The two pops. Their contract is carried by `Query.LookupDrop`, `Query.DropSubset`, `Query.DropKeepsOrder` and `Query.DropWellFormed`: exactly the credential lists go, every other field stays, in order. |
| Query.FlattenValues | feed_checker.py:17 | Re-encoding a dict with distinct keys gives each key exactly its list of values. |
| Query.FlattenOrder | feed_checker.py:17 | Re-encoding a dict whose keys are in first-occurrence order emits pairs whose keys never go back in that order. |
| Query.GroupFlatten | feed_checker.py:14-17 | Grouping the re-encoded form of a well-formed dict gives that dict back: the parse/encode round trip. |
| Query.Flatten | feed_checker.py:17 | urlencode with doseq, before percent-encoding. Its contract is carried by `Query.FlattenValues` and `Query.FlattenOrder`: one pair per value, each key's values in order, keys in dict order. |
| Query.GroupOntoExpand | feed_checker.py:14-17 | Grouping the pairs of one new key appends exactly one field with those values. |
| Query.ValuesOfEmpty | feed_checker.py:14 | A key has no values exactly when no pair uses it. |
| Query.FirstIndexSpec | feed_checker.py:14 | FirstIndex returns the position of the key's first occurrence. |
| Text.Strip | feed_checker.py:52 | The stripped text neither starts nor ends with whitespace. It is a slice of the input with only whitespace outside it. |
| Text.StripIdempotent | feed_checker.py:52 | Stripping twice gives the same text as stripping once. |
| Text.SplitLines | feed_checker.py:52 | No line holds a line boundary, and there are no lines exactly when the text is empty. |
| Text.SplitJoin | feed_checker.py:52 | Lines without boundaries, joined by any boundaries and followed by at most one final boundary, split back into exactly those lines: a final boundary opens no empty last line. Without a final boundary the last line must be non-empty, since an empty last line leaves no trace in the text. A boundary is "\r\n" or one boundary character; a lone "\r" that an empty line and a lone "\n" follow would form one "\r\n" and is excluded. |
| Text.SplitLinesPieces | feed_checker.py:52 | Every text is its split lines joined by boundaries, followed by at most one final boundary. With `Text.SplitJoin` this makes the lines exactly the pieces of the text between boundaries. |
| Text.InteriorBlankLineKept | feed_checker.py:52-57 | `x\n\ny\n` loads as the three keys `x`, `""` and `y`: the blank line is kept. |
| Entries.Put | feed_checker.py:54-57 | Assigning a key: the key maps to the new entry and every other key is unchanged. A new key goes to the end; an existing key keeps its place. Keys stay distinct. |
| Entries.PutAllGet | feed_checker.py:53-57 | After a run of assignments, each key holds the entry of the last assignment to it. A key never assigned is untouched. |
| Entries.PutAll | feed_checker.py:53-57 | The assignment loop keeps the keys distinct. What each key holds is stated by `Entries.PutAllGet`, and the key order by `Entries.PutAllKeepsOrder`. |
| Entries.NewKeysMember | feed_checker.py:53-57 | A key is added by a run of assignments exactly when it is assigned and was not a key before. |
| Entries.PutAllKeepsOrder | feed_checker.py:53-57 | After a run of assignments, the keys are the old keys in their old order, then every newly assigned key at its first assignment, in that order (`Entries.NewKeys`). |
| Entries.NewKeysOrder | feed_checker.py:53-57 | A key assigned before another key's first assignment is added to the dict before it. |
| Entries.FindOrder | feed_checker.py:53-57 | In a dict built by a run of assignments, a key assigned before another key's first assignment sits at a smaller position. |
| Entries.PutAllFresh | feed_checker.py:53-57 | If every assigned entry is fresh, every entry of the resulting dict is fresh. |
| Entries.LastEntryAbsent | feed_checker.py:61-72 | No entry is written for a URL exactly when no item names it. |
| Entries.LastEntryFound | feed_checker.py:61-72 | The entry written for a URL is that of an item for it that no later item overrides. |
| Entries.SetStatus | feed_checker.py:76-79 | Setting one registry's status changes that registry's status and leaves the other status and the metadata alone. |
| Entries.GetPresent | feed_checker.py:75 | `url in results` holds exactly when the dict has an entry for `url`. |
| Loader.FeedCandidates | feed_checker.py:63-72 | A feed keeps every truthy URL and no other. Each kept URL records its label, the agency's id and its zero-based position in the feed, skipped items counted. Kept URLs come in feed order. |
| Loader.FeedsCandidates | feed_checker.py:62-72 | Every truthy URL of every feed of the agency is kept. |
| Loader.FeedsCandidatesSound | feed_checker.py:62-72 | Every kept URL of an agency comes from one of its feeds, with its label and position. |
| Loader.CandidatesNeedUrl | feed_checker.py:64-68 | An agency yields URLs only if one of its feeds has a truthy URL. This is the only case where `itp_id` is read. |
| Loader.AgencyCandidates | feed_checker.py:62-68 | An agency without `itp_id` that raises no error yields no URL. |
| Loader.AgencyError | feed_checker.py:62-68 | The `KeyError` an agency raises: `feeds` is read first; `itp_id` only once a URL of the agency is kept. `Loader.ManifestErrors` and `Loader.CandidatesNeedUrl` state when it applies. |
| Loader.ManifestCandidates | feed_checker.py:61-72 | The YAML loop: every agency's kept URLs in order, or the first error raised. Its contract is carried by `Loader.ManifestErrors`, `Loader.ManifestSound` and `Loader.ManifestComplete`. |
| Loader.ManifestErrors | feed_checker.py:61-68 | Loading the manifest fails exactly when some agency lacks `feeds`, or lacks `itp_id` while having a truthy URL. It fails with the first such agency's error. |
| Loader.ManifestSound | feed_checker.py:61-72 | Every loaded manifest URL is a truthy URL of a feed of an agency. It records that URL's label, position and agency id. |
| Loader.ManifestComplete | feed_checker.py:61-72 | Every truthy URL of every feed of every agency is loaded, with its metadata. |
| Loader.FeedPositions | feed_checker.py:63-72 | Each URL a feed keeps can be given its place (agency, feed, position); the places lie in that feed, follow the loop order, and cover every truthy URL of the feed. |
| Loader.FeedsPositions | feed_checker.py:62-72 | The same for all the feeds of one agency: feeds in order, then positions within each feed. |
| Loader.ManifestPositions | feed_checker.py:61-72 | Each URL the YAML loop keeps has the place it was read at. The places follow the loop order (agency, then feed, then position), and every truthy URL of the manifest has its place listed. |
| Loader.LastWriterAt | feed_checker.py:61-72 | Among the loop's candidates, the last one for a URL is the one read at the last place holding that URL. |
| Loader.FirstPlaces | feed_checker.py:61-72 | A URL kept before another URL's first place occurs among the candidates before that URL's first occurrence. |
| Loader.ManifestLastWriter | feed_checker.py:61-72 | In YAML mode, a URL kept at a place and at no later place holds the metadata read at that place: label, the agency's id and the position. |
| Loader.ManifestKeyOrder | feed_checker.py:61-72 | In YAML mode, a URL kept at some place before another URL's first place comes before it among the keys of `results`. |
| Loader.CsvGet | feed_checker.py:52-57 | After the CSV loop, a key has a fresh entry without metadata exactly when it is one of the lines. |
| Loader.LoadResults | feed_checker.py:43-72 | Mode priority: a non-empty `url` gives exactly that one key. Otherwise a non-empty CSV path gives exactly the lines of the stripped text as keys, each at its first occurrence, in file order. Otherwise the manifest is used; it fails exactly when an agency raises, with that first agency's error (the error of `Loader.ManifestCandidates`), and otherwise the keys are the kept URLs at their first occurrence, in loop order, each holding the last metadata written for it. Keys are distinct and every entry starts with both registries missing. |
| Matcher.LastMatchSpec | feed_checker.py:74-79 | LastMatch finds nothing exactly when no pair lists the URL. Otherwise it finds the public URL of the last pair listing it. |
| Matcher.PassOnlyAdds | feed_checker.py:74-86 | A pass never turns present into missing. A status ends missing exactly when it started missing and no pair's `url` equals the key. |
| Matcher.MarkPresent | feed_checker.py:74-86 | A pass keeps the keys, their order, the metadata and the other registry's status. The pass's registry status becomes present, with the public URL of the last pair listing the raw key, or stays as it was. |
| Report.IsMatched | feed_checker.py:90-94 | `"present" in statuses`: either registry lists the URL. `Report.UnmatchedExactly` states that a URL is missing exactly when this fails. |
| Report.CountMatched | feed_checker.py:102 | The matched count never exceeds the number of URLs. |
| Report.UnmatchedCount | feed_checker.py:88-102 | URLs minus missing URLs equals the number of matched entries. |
| Report.UnmatchedComplete | feed_checker.py:88-95 | Every URL whose statuses are both missing is listed as missing. |
| Report.UnmatchedPositions | feed_checker.py:88-95 | Each listed URL sits at an unmatched entry, and the positions increase. |
| Report.UnmatchedInOrder | feed_checker.py:88-95 | Every listed URL is the key of an unmatched entry, and the list follows `results` iteration order. |
| Report.UnmatchedExactly | feed_checker.py:88-95 | A URL is listed exactly when neither of its statuses is present. |
| Report.CollectMissing | feed_checker.py:88-95 | The loop builds exactly the reference list of unmatched URLs, in order; the lemmas above give that list's properties. |
| Report.Reconcile | feed_checker.py:74-103 | On freshly loaded results, the keys and metadata are kept. Each registry's status is what its pass over its list leaves on a missing status, the transitland pass running first. The missing list is the unmatched URLs in order. The summary lists them when verbose and some are missing, and gives the matched count otherwise. |
| Report.Finish | feed_checker.py:74-103 | After loading: a failed load is passed on with its error. Otherwise the outcome is as `Report.Reconcile` states, with the keys of the loaded dict kept in order and the missing count between 0 and the number of URLs. |
| Report.Run | feed_checker.py:43-103 | A run fails exactly when loading fails, with the same error. Otherwise the keys are the loaded keys and the metadata is kept. Each registry's status is what its pass leaves on a missing status. A URL is missing exactly when it is unmatched, and the count lies between 0 and the number of URLs. The summary lists the missing URLs when verbose and some are missing, and the matched count otherwise. |

## Left out

- The Typer command line and the `__main__` entry point (feed_checker.py:36-42, 111-112). `url` and `csv_file` become optional strings, truthy when present and non-empty. The YAML path is replaced by the parsed manifest.
- File reading, YAML parsing and JSON writing (feed_checker.py:51-52, 59-60, 105-108). The CSV text and the parsed manifest are parameters. The `results` dict is returned instead of written. Universal-newline translation on read is not modelled; the text is taken as read.
- `get_transitland_urls` and `get_transitfeeds_urls`: their HTTP clients are not part of this model. Their outputs are the `transitland` and `transitfeeds` parameters of `Report.Run`. The transitland pass runs first, as in the code.
- Console output (feed_checker.py:97-103, 108). The summary is a datatype holding the printed list or counts, not the text.
- `tabulate` (feed_checker.py:21-33): a print-only helper that `main` never calls.
- Query.CleanUrl: works on the parsed record and decoded pairs. `urlparse`, `urlunparse`, percent-encoding and `+`-for-space quoting are library behaviour and are not modelled. Two things follow. A parameter written without `=` is re-encoded with one, and empty `&&` fields that parse_qs drops never appear in the model's pair list.
- Loader.LoadResults: manifest URLs are strings. A YAML value that is truthy but not a string (a number, say) is not modelled. Falsy values (null, empty string) are skipped as in the code.
- Loader.LoadResults: the manifest is the list of `agencies_obj.values()` in mapping order. A manifest whose top level is not a mapping, or whose `feeds` entries are not mappings, is left out.
- Loader.LoadResults: an agency's `itp_id` is either an integer or absent. A YAML `itp_id: null`, which the code reads without error and records as null, and a non-integer id are not modelled. A `feeds` value that is present but not a list (such as `feeds: null`, which raises a TypeError at feed_checker.py:62) is not modelled either: `feeds` is either a list of feeds or absent.
- An agency without `itp_id` yields no URLs (`Loader.AgencyCandidates`), so the stand-in id 0 that `Loader.ItpIdOf` uses is never recorded.
