# Package registry client: derived queries

A Dafny model of the query logic of the Rainmeas package registry client
(`src/registry.py`, class `Registry`). The client reads two kinds of JSON file
from a fixed base URL: `index.json`, whose keys are the package names, and
`packages/<name>.json`, whose `description`, `author` and `versions` fields
describe one package. From these it answers five queries:

- **package names**: the index's keys, in order (`list_all_package_names`);
- **latest version**: the explicit `"latest"` entry of `versions`, or else the
  greatest other key in code-point order (`get_latest_version`);
- **available versions**: the keys of `versions` other than `"latest"`, in the
  dict's order (`get_available_versions`);
- **download URL**: the `download` field of `versions[version]`
  (`get_version_download_url`);
- **search**: every indexed package whose name, description or author
  contains the query, ignoring case, with its latest version (or `"unknown"`)
  and its versions (`search_packages`).

How it is modelled:

- Fetching is an input. A `Remote` maps each URL to the JSON value the file
  decodes to. `Null` stands for Python's `None`. The fetch helper returns
  `None` on any failure, so a failed fetch is `Null` too
  (`wrappers.dfy`, `registry.dfy`).
- JSON values are a datatype (`json.dfy`). An object is an association list in
  insertion order. This keeps the order that `keys()` and iteration follow
  (`pydict.dfy`). `Parsed` states what `json.loads` guarantees: every object
  has distinct keys. Python truthiness is modelled exactly, so an empty dict,
  list or string counts as missing.
- Nothing in these queries catches the exceptions raised while they inspect the
  decoded JSON. `Outcome` therefore models them as separate results:
  `AttributeError` from `get`, `keys()` or `lower()` on the wrong type, and
  `TypeError` from `in` or `[]` on a list, string or scalar.
- The `str` operations used are written out (`pystr.dfy`): `lower()` on ASCII
  letters, the substring `in`, and the code-point order that `sorted` uses.
- `search_packages` is a method with a loop. The loop fills the result dict in
  place over the package names. What one turn does for one package (the
  `continue`, the name match, the description-or-author match, or an
  exception) is the function `Consider`. It is proved equal to the function
  `Search`, and lemmas state what that result means. The other queries are
  functions.
- `scenarios.dfy` shows the queries on small concrete registries.

The client is meant to fail soft, and its fetch helper does turn every fetch
error into `None`. That covers fetching only. A false package file (an empty
list, string or dict, `0`, `false`) counts as missing, because every query
tests `if not package_info` first. A true non-object package file still makes
the queries raise. A non-string `description` or `author` can raise, but only
when it is read: a name match reads neither, and a description match does not
read `author`. A `versions` that is not an object can raise, as
`LatestVersion`, `AvailableVersions` and `VersionDownloadUrl` state. For the
download URL, a list or string `versions` raises only when it holds the label,
and `null`, a number or a boolean raises TypeError at `in` for every label.
A true index that is not an object
raises as well. The model keeps all of these cases.
`SearchOfWellFormedRegistryReturns` states when the search raises nothing.

## Model

| member | source | states |
|---|---|---|
| `Registry.IndexUrl` | src/registry.py:45 | the index URL under the fixed base URL; no contract of its own: `PackageNames` states what is read from it |
| `Registry.PackageUrl` | src/registry.py:54 | the package-file URL under the fixed base URL; no contract of its own: `PackageUrlInjective` states that distinct names give distinct URLs |
| `Registry.GetPackageInfo` | src/registry.py:51-55 | `get_package_info`: the decoded package file, `None` when the fetch fails; no contract of its own: `PackageUrlInjective` and the contracts of `LatestVersion`, `AvailableVersions` and `VersionDownloadUrl` state what follows from it |
| `Registry.ListAllPackageNames` | src/registry.py:42-49 | `list_all_package_names` on the fetched index; no contract of its own: `PackageNames` and `PackageNamesAreDistinct` carry its contract |
| `Registry.GetLatestVersion` | src/registry.py:95-114 | `get_latest_version` with the optional `package_info`; no contract of its own: `LatestVersion`, `LatestIsTheExplicitEntry`, `LatestIsGreatestAvailable` and `SuppliedInfoIsNotFetched` carry its contract |
| `Registry.GetAvailableVersions` | src/registry.py:116-126 | `get_available_versions` with the optional `package_info`; no contract of its own: `AvailableVersions`, `AvailableVersionsAreTheKeysInOrder` and `SuppliedInfoIsNotFetched` carry its contract |
| `Registry.GetVersionDownloadUrl` | src/registry.py:128-139 | `get_version_download_url`, which always fetches; no contract of its own: `VersionDownloadUrl` and `DownloadableVersionIsAvailable` carry its contract |
| `PyDict.Keys` | src/registry.py:48 | `list(d.keys())` in insertion order (also :109, :126); no contract of its own: `Get`, `GetAt`, `Put` and `PutNewKeyAppends` state how it relates to lookup and assignment |
| `PyStr.ContainsIgnoringCase` | src/registry.py:73 | `query.lower() in x.lower()` (also :83-84); no contract of its own: `ContainsIffOccurs`, `LowerIdempotent` and `SearchIgnoresQueryCase` state its meaning |
| `JsonValue.Parsed` | src/registry.py:37 | what `json.loads` can return: every object has distinct keys; no contract of its own: `VersionsOfParsed`, `PackageNamesAreDistinct`, `LatestIsTheExplicitEntry` and `AvailableVersionsAreTheKeysInOrder` use it |
| `Registry.VersionsOf` | src/registry.py:104 | `package_info.get("versions", {})`; no contract of its own: `VersionsOfParsed` and the contracts of `LatestVersion`, `AvailableVersions` and `VersionDownloadUrl` state what follows from it (the same read is at :124 and :135) |
| `Registry.ResolveInfo` | src/registry.py:97-98 | the fetch done only when `package_info is None` (also :118-119); no contract of its own: `SuppliedInfoIsNotFetched` states that a supplied info is used as it is |
| `Registry.FieldMatches` | src/registry.py:83-84 | `query.lower() in field.lower()` on a description or author, AttributeError for a non-string; no contract of its own: `ConsiderStoresExactlyTheMatches` and `ConsiderRaisesNothingOnPackageFiles` state its effect on a turn |
| `Registry.MakeEntry` | src/registry.py:75-80 | the entry `{"latest": latest or "unknown", "versions": versions}` (also :86-91); no contract of its own: `ConsiderStoresExactlyTheMatches` and `SearchEntriesHoldTheVersions` state what the entry holds |
| `Registry.Consider` | src/registry.py:68-91 | one turn of the loop: the `continue` on a false info, the name match, the short-circuit `or` of description and author, and the exceptions; no contract of its own: `ConsiderStoresExactlyTheMatches` and `ConsiderRaisesNothingOnPackageFiles` state its meaning |
| `Registry.SearchFrom` | src/registry.py:67-91 | the `for` loop over the names, storing each match; no contract of its own: `SearchFromStores`, `SearchFromKeepsKeysDistinct`, `SearchFromAppendsInOrder` and `SearchFromRaisesAtFirstFailure` state its meaning |
| `Registry.Search` | src/registry.py:57-93 | `search_packages` as a value; no contract of its own: `SearchListsExactlyTheMatches`, `SearchEntriesHoldTheVersions`, `SearchResultsFollowIndexOrder` and `SearchRaisesAtFirstFailure` state its meaning, and `SearchPackages` is proved equal to it |
| `JsonValue.Truthy` | src/registry.py:47 | Python truthiness of a decoded value, as tested by `if ...` and `if not ...` (also :63, :69, :78, :100, :121, :132); no contract of its own: `OrUnknown`, `PackageNames` and `ConsiderStoresExactlyTheMatches` state its effect |
| `PyStr.Lower` | src/registry.py:73 | `lower()` on ASCII: the result has the same length, holds no ASCII capital, keeps every other character, and moves each capital to its small letter (also :83-84) |
| `PyStr.Contains` | src/registry.py:73 | the substring `in` (also :83-84); no contract of its own: `ContainsIffOccurs` states its meaning |
| `PyStr.LessEq` | src/registry.py:112 | the string order `sorted` uses; no contract of its own: `LessEqReflexive`, `LessEqAntisymmetric`, `LessEqTransitive` and `LessEqTotal` state that it is a total order |
| `Registry.PackageNames` | src/registry.py:42-49 | names are the index object's keys in order; `[]` exactly when the index is missing or false; AttributeError exactly when the index is a true non-object |
| `Registry.PackageNamesAreDistinct` | src/registry.py:47-48 | the names listed for a decoded index are pairwise distinct |
| `Registry.PackageUrlInjective` | src/registry.py:54-55 | two package names that give the same package-file URL are the same name |
| `Registry.WithoutLatest` | src/registry.py:109 | the filtered list holds exactly the keys other than `"latest"`; with no `"latest"` key it is the key list unchanged |
| `Registry.WithoutLatestCutsTheLatestKey` | src/registry.py:126 | with distinct keys and `"latest"` at position i, the filter is the key list with position i removed |
| `Registry.WithoutLatestHasNoDuplicates` | src/registry.py:126 | filtering distinct keys leaves distinct labels |
| `Registry.LatestVersion` | src/registry.py:100-114 | no info gives `None`; an explicit `"latest"` entry is returned whatever the other keys are; otherwise a key that is greater than or equal to every key; empty `versions` gives `None`; the AttributeError and TypeError cases for non-object info and non-object `versions` |
| `Registry.LatestIsTheExplicitEntry` | src/registry.py:104-106 | in a decoded file, the latest version is the value stored under `"latest"` |
| `Registry.LatestIsGreatestAvailable` | src/registry.py:109-112 | with no `"latest"` key and a non-empty `versions`, the latest version is the maximum of the available versions |
| `Registry.AvailableVersions` | src/registry.py:116-126 | no info gives `[]`; otherwise exactly the keys of `versions` except `"latest"`; AttributeError for a true non-object info, or for any non-object `versions` (the code calls `keys()`) |
| `Registry.AvailableVersionsAreTheKeysInOrder` | src/registry.py:124-126 | for a decoded file: the available versions are the keys in dict order with the one `"latest"` entry cut out, and no label appears twice |
| `Registry.VersionDownloadUrl` | src/registry.py:128-139 | a non-`None` result is the `download` value of an object stored under `version`; an object entry with `download` gives that value; a missing key or non-object entry gives `None`; the TypeError cases of a list or string `versions` that holds `version` |
| `Registry.DownloadableVersionIsAvailable` | src/registry.py:135-137 | a version with a download URL is a key of `versions`, and it is an available version unless it is `"latest"` |
| `Registry.SuppliedInfoIsNotFetched` | src/registry.py:97-98 | when the caller passes an info, the latest and available versions do not depend on the server |
| `Registry.OrUnknown` | src/registry.py:78 | the stored latest is always true: the latest version itself when true, `"unknown"` otherwise |
| `Registry.ConsiderStoresExactlyTheMatches` | src/registry.py:68-91 | a package turn that does not raise stores an entry exactly when the info is true and the name, description or author contains the query (ignoring case, missing field read as `""`); the entry holds the latest version or `"unknown"` and the available versions |
| `Registry.ConsiderRaisesNothingOnPackageFiles` | src/registry.py:68-91 | a missing info, or a package file of the documented shape, never makes a turn raise |
| `Registry.SearchFromStores` | src/registry.py:67-91 | a scan that completes looked at every name without an exception; each matched name maps to its entry and every other key keeps its earlier value |
| `Registry.SearchFromKeepsKeysDistinct` | src/registry.py:77-80 | storing into the result dict never duplicates a key |
| `Registry.SearchFromAppendsInOrder` | src/registry.py:67-91 | over distinct new names the scan only appends, and the appended keys are a subsequence of the names |
| `Registry.SearchFromRaisesAtFirstFailure` | src/registry.py:67-91 | a scan raises exactly when some name's turn raises, and it raises the exception of the first such name |
| `Registry.SearchWithoutIndexIsEmpty` | src/registry.py:62-64 | a missing or empty index makes the search return `{}` |
| `Registry.SearchListsExactlyTheMatches` | src/registry.py:67-91 | a package is in the result exactly when it is an index name, its info is true, and the query matches its name, description or author |
| `Registry.SearchEntriesHoldTheVersions` | src/registry.py:75-91 | each result entry's `latest` is the latest version (or `"unknown"` when it is false) and its `versions` are the available versions |
| `Registry.SearchResultsFollowIndexOrder` | src/registry.py:59-93 | no name is listed twice, and for a decoded index the result keys appear in index order |
| `Registry.SearchRaisesAtFirstFailure` | src/registry.py:57-93 | the search raises AttributeError for a true non-object index; otherwise it raises exactly when a listed package's turn raises, with the first such exception |
| `Registry.SearchOfWellFormedRegistryReturns` | src/registry.py:57-93 | if the index is an object or missing, and every listed package's file is of the documented shape or missing, the search raises nothing |
| `Registry.SearchFromIgnoresQueryCase` | src/registry.py:73 | a scan gives the same answer for two queries that lower to the same string |
| `Registry.SearchIgnoresQueryCase` | src/registry.py:83-84 | the search gives the same answer for two queries that lower to the same string |
| `Registry.SearchOfLoweredQuery` | src/registry.py:73 | searching for `query.lower()` gives the same answer as searching for `query` |
| `Registry.EmptyQueryListsEveryPackage` | src/registry.py:67-80 | the empty query lists exactly the indexed packages whose info is true |
| `Registry.SearchPackages` | src/registry.py:57-93 | the loop that fills the result dict returns what `Search` specifies; a returned result lists exactly the index's matching packages |
| `PyStr.Max` | src/registry.py:112 | the last of the sorted labels is one of them and is greater than or equal to all of them in code-point order |
| `PyStr.MaxIsUnique` | src/registry.py:112 | any upper bound that is in the list equals `Max`, so ties in `sorted` do not matter |
| `PyStr.LessEqReflexive` | src/registry.py:112 | string order is reflexive |
| `PyStr.LessEqAntisymmetric` | src/registry.py:112 | string order is antisymmetric |
| `PyStr.LessEqTransitive` | src/registry.py:112 | string order is transitive |
| `PyStr.LessEqTotal` | src/registry.py:112 | any two strings are comparable |
| `PyStr.ContainsIffOccurs` | src/registry.py:83 | Python's substring `in` holds exactly when the needle occurs at some offset |
| `PyStr.LowerIdempotent` | src/registry.py:73 | lowering an already lowered string changes nothing |
| `PyDict.Get` | src/registry.py:136 | `k in d` exactly when lookup finds a value, and the value found is paired with `k` in the dict |
| `PyDict.GetAt` | src/registry.py:106 | with distinct keys, lookup of the i-th key gives the i-th value |
| `PyDict.GetOr` | src/registry.py:104 | `get(k, default)` gives the default for a missing key and a stored value otherwise |
| `PyDict.Put` | src/registry.py:77 | assignment keeps the key order for an existing key and appends a new key |
| `PyDict.GetPut` | src/registry.py:88 | after `d[k] = v`, `k` maps to `v` and every other key is unchanged |
| `PyDict.PutNewKeyAppends` | src/registry.py:77-80 | assigning a new key appends the pair at the end |
| `Scenarios.ExplicitLatestWins` | src/registry.py:105-106 | `{"latest": "2.0", "1.0": {}, "2.0": {}}` gives `"2.0"` |
| `Scenarios.GreatestLabelWithoutLatest` | src/registry.py:109-112 | `{"1.0": {}, "2.0": {}}` gives `"2.0"` |
| `Scenarios.CodePointOrderIsNotNumeric` | src/registry.py:111-112 | `{"9.0": {}, "10.0": {}}` gives `"9.0"`, not `"10.0"` |
| `Scenarios.DownloadUrlOfListedVersion` | src/registry.py:135-139 | the URL for a listed version, `None` for an unlisted one |
| `Scenarios.LatestPointerHasNoDownload` | src/registry.py:136 | asking for the download of `"latest"`, which maps to a string, gives `None` |
| `Scenarios.SearchFindsByDescription` | src/registry.py:83-91 | searching `"demo"` in a one-package registry finds it by description with latest `"1.2"` and versions `["1.0", "1.2"]` |
| `Scenarios.SearchMatchesNameIgnoringCase` | src/registry.py:73-80 | `"FOO"` finds `"foobar"` by name and not `"baz"` |
| `Scenarios.SearchRaisesOnNonObjectPackageFile` | src/registry.py:83 | a package file that decodes to a list makes the search raise AttributeError |

## Left out

- `_fetch_remote_json` (HTTP GET, UTF-8 decoding, `json.loads`, error printing) is not modelled. It is replaced by the `Remote` input, which gives `Null` wherever the fetch would fail.
- The error messages the code prints are not modelled. The code prints nothing else.
- `resource_path` and the `urllib2` import fallback are not modelled. They are packaging glue with no part in the queries.
- The `Registry` class is not modelled as a class. Its only field is the base URL, set in the constructor and never changed, so it is the constant `RemoteBaseUrl`.
- `PyStr.Lower` covers only ASCII capitals. What `str.lower()` does to other characters is not modelled.
- JSON numbers are integers, so floats, NaN and infinities are not modelled. A number stored under `"latest"` is returned as it is, and the model says nothing about it beyond its truth value.
- `sorted(...)` is not modelled as a sort. Only its last element is used, and that is modelled as `PyStr.Max`.
- A fetch URL is the plain concatenation the code builds. There is no percent-encoding, and no check of names that contain `/` or `..`.
- test/test_cli.py only imports the modules and builds objects, so it states no behaviour to model.
