/** The derived queries of the package registry client: package names from the
    index, a package's latest version, its available versions, a version's
    download URL, and the search over all packages.

    Fetching is not modelled: a `Remote` gives, for every URL, the JSON the
    server's file decodes to, or `Null` when the fetch or the decoding failed
    (the fetch helper returns Python's `None` then, which is also what the
    document `null` decodes to). Nothing is cached, so every query simply reads
    the `Remote` it is given. */
module Registry {
  import opened Wrappers
  import opened PyStr
  import opened PyDict
  import opened JsonValue

  const RemoteBaseUrl: string := "https://raw.githubusercontent.com/Rainmeas/rainmeas-registry/main"

  /** The decoded answer of the registry server for each URL; `Null` for a failed fetch. */
  type Remote = string -> Json

  function IndexUrl(): string
  {
    RemoteBaseUrl + "/index.json"
  }

  function PackageUrl(name: string): string
  {
    RemoteBaseUrl + "/packages/" + name + ".json"
  }

  /** Different packages are fetched from different URLs. */
  lemma PackageUrlInjective(a: string, b: string)
    requires PackageUrl(a) == PackageUrl(b)
    ensures a == b
  {
    var prefix := RemoteBaseUrl + "/packages/";
    assert PackageUrl(a) == prefix + (a + ".json");
    assert PackageUrl(b) == prefix + (b + ".json");
    assert |a| == |b|;
    assert a == PackageUrl(a)[|prefix|..|prefix| + |a|];
    assert b == PackageUrl(b)[|prefix|..|prefix| + |b|];
  }

  /** `get_package_info`: the package's JSON file, `Null` when it could not be fetched. */
  function GetPackageInfo(remote: Remote, name: string): Json
  {
    remote(PackageUrl(name))
  }

  // ---------------------------------------------------------------------------
  // list_all_package_names

  /** The names `list_all_package_names` gives for a decoded index: its keys in
      order, none when the index is missing or empty, and the AttributeError of
      `keys()` when the index is some other true value. */
  function PackageNames(index: Json): (r: Outcome<seq<string>>)
    ensures r == Returned([]) <==> !Truthy(index)
    ensures r.Raised? <==> Truthy(index) && !index.Obj?
    ensures r.Raised? ==> r.exc == AttributeError
    ensures index.Obj? ==> r.Returned? && |r.value| == |index.fields|
    ensures index.Obj? ==> forall i :: 0 <= i < |r.value| ==> r.value[i] == index.fields[i].0
  {
    if !Truthy(index) then Returned([])
    else if index.Obj? then Returned(Keys(index.fields))
    else Raised(AttributeError)
  }

  function ListAllPackageNames(remote: Remote): Outcome<seq<string>>
  {
    PackageNames(remote(IndexUrl()))
  }

  /** The index is a decoded JSON object, so no name is listed twice. */
  lemma PackageNamesAreDistinct(index: Json)
    requires Parsed(index)
    requires PackageNames(index).Returned?
    ensures NoDuplicates(PackageNames(index).value)
  {
  }

  // ---------------------------------------------------------------------------
  // Versions of one package

  /** `package_info.get("versions", {})`. */
  function VersionsOf(info: Json): Json
    requires info.Obj?
  {
    GetOr(info.fields, "versions", Obj([]))
  }

  /** `[k for k in keys if k != "latest"]`. */
  function WithoutLatest(ks: seq<string>): (r: seq<string>)
    ensures forall k :: k in r <==> k in ks && k != "latest"
    ensures "latest" !in ks ==> r == ks
    decreases |ks|
  {
    if ks == [] then []
    else (if ks[0] == "latest" then [] else [ks[0]]) + WithoutLatest(ks[1..])
  }

  /** With a `"latest"` key at position i (and no other copy of it), the
      version labels are the keys with that one entry cut out. */
  lemma {:induction false} WithoutLatestCutsTheLatestKey(ks: seq<string>, i: int)
    requires NoDuplicates(ks)
    requires 0 <= i < |ks| && ks[i] == "latest"
    ensures WithoutLatest(ks) == ks[..i] + ks[i + 1..]
    decreases |ks|
  {
    if i == 0 {
      assert "latest" !in ks[1..] by {
        forall j | 0 <= j < |ks[1..]| ensures ks[1..][j] != "latest" {
          assert ks[1..][j] == ks[j + 1];
        }
      }
    } else {
      assert NoDuplicates(ks[1..]) by {
        forall a, b | 0 <= a < b < |ks[1..]| ensures ks[1..][a] != ks[1..][b] {
          assert ks[1..][a] == ks[a + 1] && ks[1..][b] == ks[b + 1];
        }
      }
      assert ks[0] != "latest" by { assert ks[0] != ks[i]; }
      WithoutLatestCutsTheLatestKey(ks[1..], i - 1);
      assert ks[..i] == [ks[0]] + ks[1..][..i - 1];
      assert ks[i + 1..] == ks[1..][i..];
    }
  }

  /** Filtering keeps distinct labels distinct. */
  lemma {:induction false} WithoutLatestHasNoDuplicates(ks: seq<string>)
    requires NoDuplicates(ks)
    ensures NoDuplicates(WithoutLatest(ks))
    decreases |ks|
  {
    if ks != [] {
      assert NoDuplicates(ks[1..]) by {
        forall a, b | 0 <= a < b < |ks[1..]| ensures ks[1..][a] != ks[1..][b] {
          assert ks[1..][a] == ks[a + 1] && ks[1..][b] == ks[b + 1];
        }
      }
      WithoutLatestHasNoDuplicates(ks[1..]);
      assert ks[0] !in ks[1..] by {
        forall j | 0 <= j < |ks[1..]| ensures ks[1..][j] != ks[0] {
          assert ks[1..][j] == ks[j + 1];
        }
      }
    }
  }

  /** `get_latest_version` on a package's info: the explicit `"latest"` entry when
      there is one, whatever the other keys; otherwise the greatest other key in
      code-point order; `None` when there is no info or no version. A true info
      that is not an object raises AttributeError at `get`; a `versions` value
      that is not an object raises TypeError at `in` or `[]`, or AttributeError
      at `keys()`. */
  function LatestVersion(info: Json): (r: Outcome<Json>)
    ensures !Truthy(info) ==> r == Returned(Null)
    ensures Truthy(info) && !info.Obj? ==> r == Raised(AttributeError)
    ensures Truthy(info) && info.Obj? && VersionsOf(info).Obj? ==>
              var vs := VersionsOf(info).fields;
              && r.Returned?
              && ("latest" in Keys(vs) ==> Get(vs, "latest") == Some(r.value))
              && ("latest" !in Keys(vs) && vs != [] ==>
                    && r.value.Str?
                    && r.value.s in Keys(vs)
                    && forall k :: k in Keys(vs) ==> LessEq(k, r.value.s))
              && (vs == [] ==> r.value == Null)
    ensures Truthy(info) && info.Obj? && VersionsOf(info).Arr? ==>
              r == Raised(if Str("latest") in VersionsOf(info).items then TypeError else AttributeError)
    ensures Truthy(info) && info.Obj? && VersionsOf(info).Str? ==>
              r == Raised(if Contains(VersionsOf(info).s, "latest") then TypeError else AttributeError)
    ensures Truthy(info) && info.Obj? && (VersionsOf(info).Null? || VersionsOf(info).Bool? || VersionsOf(info).Num?) ==>
              r == Raised(TypeError)
  {
    if !Truthy(info) then Returned(Null)
    else if !info.Obj? then Raised(AttributeError)
    else
      match VersionsOf(info)
      case Obj(vs) =>
        (match Get(vs, "latest")
         case Some(latest) => Returned(latest)
         case None =>
           var labels := WithoutLatest(Keys(vs));
           if labels == [] then
             Returned(Null)
           else
             Returned(Str(Max(labels))))
      case Arr(items) => if Str("latest") in items then Raised(TypeError) else Raised(AttributeError)
      case Str(s) => if Contains(s, "latest") then Raised(TypeError) else Raised(AttributeError)
      case _ => Raised(TypeError)
  }

  /** `get_available_versions` on a package's info: the keys of `versions` other
      than `"latest"`; `[]` when there is no info. A true info that is not an
      object, or a `versions` value that is not an object, raises AttributeError. */
  function AvailableVersions(info: Json): (r: Outcome<seq<string>>)
    ensures !Truthy(info) ==> r == Returned([])
    ensures Truthy(info) && !(info.Obj? && VersionsOf(info).Obj?) ==> r == Raised(AttributeError)
    ensures Truthy(info) && info.Obj? && VersionsOf(info).Obj? ==>
              && r.Returned?
              && forall k :: k in r.value <==> k in Keys(VersionsOf(info).fields) && k != "latest"
  {
    if !Truthy(info) then Returned([])
    else if !info.Obj? then Raised(AttributeError)
    else
      match VersionsOf(info)
      case Obj(vs) => Returned(WithoutLatest(Keys(vs)))
      case _ => Raised(AttributeError)
  }

  /** What `get` finds in a decoded object was decoded too. */
  lemma VersionsOfParsed(info: Json)
    requires info.Obj? && Parsed(info)
    ensures Parsed(VersionsOf(info))
  {
    var v := VersionsOf(info);
    if "versions" in Keys(info.fields) {
      var i :| 0 <= i < |info.fields| && info.fields[i] == ("versions", v);
      assert Parsed(info.fields[i].1);
    }
  }

  /** The available versions are exactly the keys of a decoded `versions`
      object in its own order, with the `"latest"` entry, if any, cut out, and
      none twice. */
  lemma AvailableVersionsAreTheKeysInOrder(info: Json)
    requires Parsed(info) && Truthy(info) && info.Obj? && VersionsOf(info).Obj?
    ensures var ks := Keys(VersionsOf(info).fields);
            && AvailableVersions(info).Returned?
            && NoDuplicates(AvailableVersions(info).value)
            && ("latest" !in ks ==> AvailableVersions(info).value == ks)
            && (forall i :: 0 <= i < |ks| && ks[i] == "latest" ==>
                  AvailableVersions(info).value == ks[..i] + ks[i + 1..])
  {
    VersionsOfParsed(info);
    var ks := Keys(VersionsOf(info).fields);
    WithoutLatestHasNoDuplicates(ks);
    forall i | 0 <= i < |ks| && ks[i] == "latest"
      ensures AvailableVersions(info).value == ks[..i] + ks[i + 1..]
    {
      WithoutLatestCutsTheLatestKey(ks, i);
    }
  }

  /** Without an explicit `"latest"`, the latest version is the last of the
      sorted available versions, i.e. the greatest of them. */
  lemma LatestIsGreatestAvailable(info: Json)
    requires Truthy(info) && info.Obj? && VersionsOf(info).Obj?
    requires "latest" !in Keys(VersionsOf(info).fields)
    requires VersionsOf(info).fields != []
    ensures AvailableVersions(info).Returned? && AvailableVersions(info).value != []
    ensures LatestVersion(info) == Returned(Str(Max(AvailableVersions(info).value)))
  {
    var vs := VersionsOf(info).fields;
    var available := AvailableVersions(info).value;
    assert Keys(vs)[0] in available;
    var latest := LatestVersion(info).value;
    MaxIsUnique(available, latest.s);
  }

  /** With an explicit `"latest"` entry in a decoded `versions` object, the
      latest version is the value stored under it. */
  lemma LatestIsTheExplicitEntry(info: Json, i: int)
    requires Parsed(info) && Truthy(info) && info.Obj? && VersionsOf(info).Obj?
    requires 0 <= i < |VersionsOf(info).fields| && VersionsOf(info).fields[i].0 == "latest"
    ensures LatestVersion(info) == Returned(VersionsOf(info).fields[i].1)
  {
    VersionsOfParsed(info);
    GetAt(VersionsOf(info).fields, i);
  }

  /** `get_version_download_url` on a package's info: the `download` field of
      `versions[versionLabel]` when that is an object (`None` when the field is
      missing), `None` when the versionLabel is not a key or its value is not an
      object. A true info that is not an object raises AttributeError; a
      `versions` list or string that holds `versionLabel` raises TypeError at
      `versions[versionLabel]`; a `versions` that cannot be searched raises TypeError
      at `in`. */
  function VersionDownloadUrl(info: Json, versionLabel: string): (r: Outcome<Json>)
    ensures !Truthy(info) ==> r == Returned(Null)
    ensures Truthy(info) && !info.Obj? ==> r == Raised(AttributeError)
    ensures Truthy(info) && info.Obj? && VersionsOf(info).Obj? ==> r.Returned?
    ensures Truthy(info) && info.Obj? && VersionsOf(info).Obj? && r.value != Null ==>
              && Get(VersionsOf(info).fields, versionLabel).Some?
              && Get(VersionsOf(info).fields, versionLabel).value.Obj?
              && Get(Get(VersionsOf(info).fields, versionLabel).value.fields, "download") == Some(r.value)
    ensures (&& Truthy(info) && info.Obj? && VersionsOf(info).Obj?
             && Get(VersionsOf(info).fields, versionLabel).Some?
             && Get(VersionsOf(info).fields, versionLabel).value.Obj?
             && "download" in Keys(Get(VersionsOf(info).fields, versionLabel).value.fields)) ==>
              Get(Get(VersionsOf(info).fields, versionLabel).value.fields, "download") == Some(r.value)
    ensures (&& Truthy(info) && info.Obj? && VersionsOf(info).Obj?
             && versionLabel !in Keys(VersionsOf(info).fields)) ==> r == Returned(Null)
    ensures (&& Truthy(info) && info.Obj? && VersionsOf(info).Obj?
             && Get(VersionsOf(info).fields, versionLabel).Some?
             && !Get(VersionsOf(info).fields, versionLabel).value.Obj?) ==> r == Returned(Null)
    ensures Truthy(info) && info.Obj? && VersionsOf(info).Arr? ==>
              r == (if Str(versionLabel) in VersionsOf(info).items then Raised(TypeError) else Returned(Null))
    ensures Truthy(info) && info.Obj? && VersionsOf(info).Str? ==>
              r == (if Contains(VersionsOf(info).s, versionLabel) then Raised(TypeError) else Returned(Null))
    ensures Truthy(info) && info.Obj? && (VersionsOf(info).Null? || VersionsOf(info).Bool? || VersionsOf(info).Num?) ==>
              r == Raised(TypeError)
  {
    if !Truthy(info) then Returned(Null)
    else if !info.Obj? then Raised(AttributeError)
    else
      match VersionsOf(info)
      case Obj(vs) =>
        (match Get(vs, versionLabel)
         case Some(entry) =>
           if entry.Obj? then Returned(GetOr(entry.fields, "download", Null)) else Returned(Null)
         case None => Returned(Null))
      case Arr(items) => if Str(versionLabel) in items then Raised(TypeError) else Returned(Null)
      case Str(s) => if Contains(s, versionLabel) then Raised(TypeError) else Returned(Null)
      case _ => Raised(TypeError)
  }

  /** A version with a download URL is one of the package's versions: one of
      its available versions unless it is the key `"latest"` itself. */
  lemma DownloadableVersionIsAvailable(info: Json, versionLabel: string)
    requires VersionDownloadUrl(info, versionLabel).Returned?
    requires VersionDownloadUrl(info, versionLabel).value != Null
    ensures info.Obj? && VersionsOf(info).Obj? && versionLabel in Keys(VersionsOf(info).fields)
    ensures versionLabel != "latest" ==> versionLabel in AvailableVersions(info).value
  {
  }

  /** `package_info` if the caller passed one, else the fetched info. */
  function ResolveInfo(remote: Remote, name: string, packageInfo: Json): Json
  {
    if packageInfo == Null then GetPackageInfo(remote, name) else packageInfo
  }

  /** `get_latest_version(package_name, package_info)`. */
  function GetLatestVersion(remote: Remote, name: string, packageInfo: Json): Outcome<Json>
  {
    LatestVersion(ResolveInfo(remote, name, packageInfo))
  }

  /** `get_available_versions(package_name, package_info)`. */
  function GetAvailableVersions(remote: Remote, name: string, packageInfo: Json): Outcome<seq<string>>
  {
    AvailableVersions(ResolveInfo(remote, name, packageInfo))
  }

  /** `get_version_download_url(package_name, version)`: always fetches. */
  function GetVersionDownloadUrl(remote: Remote, name: string, version: string): Outcome<Json>
  {
    VersionDownloadUrl(GetPackageInfo(remote, name), version)
  }

  /** Info the caller supplies is used as it is: the answer does not depend on
      what the server would send. */
  lemma SuppliedInfoIsNotFetched(remote1: Remote, remote2: Remote, name: string, packageInfo: Json)
    requires packageInfo != Null
    ensures GetLatestVersion(remote1, name, packageInfo) == GetLatestVersion(remote2, name, packageInfo)
    ensures GetAvailableVersions(remote1, name, packageInfo) == GetAvailableVersions(remote2, name, packageInfo)
  {
  }

  // ---------------------------------------------------------------------------
  // search_packages

  /** One entry of the search result: `{"latest": ..., "versions": [...]}`. */
  datatype SearchEntry = SearchEntry(latest: Json, versions: seq<string>)

  /** The search result dict, package name to entry, in insertion order. */
  type SearchResults = seq<(string, SearchEntry)>

  /** `latest_version or "unknown"`. */
  function OrUnknown(latest: Json): (r: Json)
    ensures Truthy(r)
    ensures Truthy(latest) ==> r == latest
    ensures !Truthy(latest) ==> r == Str("unknown")
  {
    if Truthy(latest) then latest else Str("unknown")
  }

  /** `query.lower() in field.lower()`; only a string has `lower()`. */
  function FieldMatches(field: Json, query: string): Outcome<bool>
  {
    if field.Str? then Returned(ContainsIgnoringCase(field.s, query)) else Raised(AttributeError)
  }

  /** The entry built for a matched package. */
  function MakeEntry(remote: Remote, name: string, info: Json): Outcome<Option<SearchEntry>>
  {
    match GetLatestVersion(remote, name, info)
    case Raised(e) => Raised(e)
    case Returned(latest) =>
      match GetAvailableVersions(remote, name, info)
      case Raised(e) => Raised(e)
      case Returned(versions) => Returned(Some(SearchEntry(OrUnknown(latest), versions)))
  }

  /** One turn of the scan over the package names: `None` to go on with the
      next name (no info, or no match), the entry to store, or the exception
      that ends the search. */
  function Consider(remote: Remote, query: string, name: string): Outcome<Option<SearchEntry>>
  {
    var info := GetPackageInfo(remote, name);
    if !Truthy(info) then Returned(None)
    else if ContainsIgnoringCase(name, query) then MakeEntry(remote, name, info)
    else if !info.Obj? then Raised(AttributeError)
    else
      match FieldMatches(GetOr(info.fields, "description", Str("")), query)
      case Raised(e) => Raised(e)
      case Returned(true) => MakeEntry(remote, name, info)
      case Returned(false) =>
        match FieldMatches(GetOr(info.fields, "author", Str("")), query)
        case Raised(e) => Raised(e)
        case Returned(matched) => if matched then MakeEntry(remote, name, info) else Returned(None)
  }

  /** The scan over `names`, storing into `results`. */
  function SearchFrom(remote: Remote, query: string, names: seq<string>, results: SearchResults): Outcome<SearchResults>
    decreases |names|
  {
    if names == [] then Returned(results)
    else
      match Consider(remote, query, names[0])
      case Raised(e) => Raised(e)
      case Returned(None) => SearchFrom(remote, query, names[1..], results)
      case Returned(Some(entry)) => SearchFrom(remote, query, names[1..], Put(results, names[0], entry))
  }

  /** What `search_packages(query)` returns or raises. */
  function Search(remote: Remote, query: string): Outcome<SearchResults>
  {
    match ListAllPackageNames(remote)
    case Raised(e) => Raised(e)
    case Returned(names) => SearchFrom(remote, query, names, [])
  }

  /** `search_packages`: fills the result dict name by name. What it returns
      lists exactly the index's packages that match the query. */
  method SearchPackages(remote: Remote, query: string) returns (r: Outcome<SearchResults>)
    ensures r == Search(remote, query)
    ensures r.Returned? ==>
              && ListAllPackageNames(remote).Returned?
              && forall n :: n in Keys(r.value)
                             <==> && n in ListAllPackageNames(remote).value
                                  && Truthy(GetPackageInfo(remote, n))
                                  && Matches(query, n, GetPackageInfo(remote, n))
  {
    var results: SearchResults := [];
    var listed := ListAllPackageNames(remote);
    if listed.Raised? {
      return Raised(listed.exc);
    }
    var packageNames := listed.value;
    if packageNames == [] {
      return Returned(results);
    }
    var i := 0;
    while i < |packageNames|
      invariant 0 <= i <= |packageNames|
      invariant SearchFrom(remote, query, packageNames[i..], results) == SearchFrom(remote, query, packageNames, [])
    {
      var packageName := packageNames[i];
      assert packageNames[i..][1..] == packageNames[i + 1..];
      var considered := Consider(remote, query, packageName);
      match considered {
        case Raised(e) =>
          return Raised(e);
        case Returned(None) =>
        case Returned(Some(entry)) =>
          results := Put(results, packageName, entry);
      }
      i := i + 1;
    }
    r := Returned(results);
    SearchListsExactlyTheMatches(remote, query);
  }

  // ---------------------------------------------------------------------------
  // What the search promises

  /** The text of an optional string field: `""` when it is missing (what
      `get(key, "")` supplies) and `""` too for a value that is no string. */
  function TextField(info: Json, key: string): string
  {
    if info.Obj? && GetOr(info.fields, key, Str("")).Str? then GetOr(info.fields, key, Str("")).s else ""
  }

  /** The query occurs, ignoring case, in the package's name, description or author. */
  predicate Matches(query: string, name: string, info: Json)
  {
    || ContainsIgnoringCase(name, query)
    || ContainsIgnoringCase(TextField(info, "description"), query)
    || ContainsIgnoringCase(TextField(info, "author"), query)
  }

  /** The shape of a package file: an object whose `description` and `author`
      are strings when present and whose `versions` is an object when present. */
  predicate PackageFile(info: Json)
  {
    && info.Obj?
    && GetOr(info.fields, "description", Str("")).Str?
    && GetOr(info.fields, "author", Str("")).Str?
    && VersionsOf(info).Obj?
  }

  /** A turn that does not raise stores an entry exactly for a package with a
      true info that matches, and that entry holds the package's latest version
      (or "unknown") and its available versions. */
  lemma ConsiderStoresExactlyTheMatches(remote: Remote, query: string, name: string)
    requires Consider(remote, query, name).Returned?
    ensures var info := GetPackageInfo(remote, name);
            Consider(remote, query, name).value.Some? <==> Truthy(info) && Matches(query, name, info)
    ensures var info := GetPackageInfo(remote, name);
            Consider(remote, query, name).value.Some? ==>
              && LatestVersion(info).Returned?
              && AvailableVersions(info).Returned?
              && Consider(remote, query, name).value.value
                 == SearchEntry(OrUnknown(LatestVersion(info).value), AvailableVersions(info).value)
  {
  }

  /** A missing or false info, or a package file, never makes the turn raise. */
  lemma ConsiderRaisesNothingOnPackageFiles(remote: Remote, query: string, name: string)
    requires !Truthy(GetPackageInfo(remote, name)) || PackageFile(GetPackageInfo(remote, name))
    ensures Consider(remote, query, name).Returned?
  {
  }

  /** A scan that completes has looked at every name without an exception, and
      leaves each name that turned up an entry mapped to that entry and every
      other key as it was. */
  lemma {:induction false} SearchFromStores(remote: Remote, query: string, names: seq<string>, acc: SearchResults)
    requires SearchFrom(remote, query, names, acc).Returned?
    ensures forall n :: n in names ==> Consider(remote, query, n).Returned?
    ensures forall n :: Get(SearchFrom(remote, query, names, acc).value, n)
                        == if n in names && Consider(remote, query, n).value.Some?
                           then Consider(remote, query, n).value
                           else Get(acc, n)
    decreases |names|
  {
    if names != [] {
      var n0 := names[0];
      assert forall n :: n in names <==> n == n0 || n in names[1..];
      match Consider(remote, query, n0)
      case Returned(None) =>
        SearchFromStores(remote, query, names[1..], acc);
      case Returned(Some(e)) =>
        SearchFromStores(remote, query, names[1..], Put(acc, n0, e));
        forall n
          ensures Get(Put(acc, n0, e), n) == if n == n0 then Some(e) else Get(acc, n)
        {
          GetPut(acc, n0, e, n);
        }
    }
  }

  /** A scan never stores a name twice. */
  lemma {:induction false} SearchFromKeepsKeysDistinct(remote: Remote, query: string, names: seq<string>, acc: SearchResults)
    requires NoDuplicates(Keys(acc))
    requires SearchFrom(remote, query, names, acc).Returned?
    ensures NoDuplicates(Keys(SearchFrom(remote, query, names, acc).value))
    decreases |names|
  {
    if names != [] {
      match Consider(remote, query, names[0])
      case Returned(None) =>
        SearchFromKeepsKeysDistinct(remote, query, names[1..], acc);
      case Returned(Some(e)) =>
        PutKeepsKeysDistinct(acc, names[0], e);
        SearchFromKeepsKeysDistinct(remote, query, names[1..], Put(acc, names[0], e));
    }
  }

  /** `a` is `b` with some elements left out, in `b`'s order. */
  predicate IsSubsequence(a: seq<string>, b: seq<string>)
    decreases |b|
  {
    a == [] || (b != [] && ((a[0] == b[0] && IsSubsequence(a[1..], b[1..])) || IsSubsequence(a, b[1..])))
  }

  /** Over distinct names not yet stored, the scan only appends, in the order of the names. */
  lemma {:induction false} SearchFromAppendsInOrder(remote: Remote, query: string, names: seq<string>, acc: SearchResults)
    requires NoDuplicates(names)
    requires forall n :: n in names ==> n !in Keys(acc)
    requires SearchFrom(remote, query, names, acc).Returned?
    ensures var res := SearchFrom(remote, query, names, acc).value;
            && |acc| <= |res|
            && res[..|acc|] == acc
            && IsSubsequence(Keys(res[|acc|..]), names)
    decreases |names|
  {
    var res := SearchFrom(remote, query, names, acc).value;
    if names == [] {
      assert res[|acc|..] == [];
    } else {
      var n0 := names[0];
      assert NoDuplicates(names[1..]) by {
        forall a, b | 0 <= a < b < |names[1..]| ensures names[1..][a] != names[1..][b] {
          assert names[1..][a] == names[a + 1] && names[1..][b] == names[b + 1];
        }
      }
      assert n0 !in names[1..] by {
        forall j | 0 <= j < |names[1..]| ensures names[1..][j] != n0 {
          assert names[1..][j] == names[j + 1];
        }
      }
      match Consider(remote, query, n0)
      case Returned(None) =>
        SearchFromAppendsInOrder(remote, query, names[1..], acc);
      case Returned(Some(e)) =>
        var acc' := Put(acc, n0, e);
        PutNewKeyAppends(acc, n0, e);
        assert Keys(acc') == Keys(acc) + [n0];
        SearchFromAppendsInOrder(remote, query, names[1..], acc');
        assert res[..|acc|] == res[..|acc'|][..|acc|];
        assert res[|acc|] == acc'[|acc|];
        var t := Keys(res[|acc|..]);
        assert t[0] == n0;
        assert t[1..] == Keys(res[|acc'|..]);
    }
  }

  /** A scan raises exactly when the turn of some name raises, and then with the
      exception of the first such name. */
  lemma {:induction false} SearchFromRaisesAtFirstFailure(remote: Remote, query: string, names: seq<string>, acc: SearchResults)
    ensures SearchFrom(remote, query, names, acc).Raised?
            <==> exists i :: 0 <= i < |names| && Consider(remote, query, names[i]).Raised?
    ensures SearchFrom(remote, query, names, acc).Raised? ==>
              exists i :: && 0 <= i < |names|
                          && Consider(remote, query, names[i]) == Raised(SearchFrom(remote, query, names, acc).exc)
                          && forall j :: 0 <= j < i ==> Consider(remote, query, names[j]).Returned?
    decreases |names|
  {
    if names != [] {
      var step := Consider(remote, query, names[0]);
      if step.Raised? {
        assert Consider(remote, query, names[0]) == Raised(SearchFrom(remote, query, names, acc).exc);
      } else {
        var acc' := if step.value.Some? then Put(acc, names[0], step.value.value) else acc;
        assert SearchFrom(remote, query, names, acc) == SearchFrom(remote, query, names[1..], acc');
        SearchFromRaisesAtFirstFailure(remote, query, names[1..], acc');
        if exists i :: 0 <= i < |names| && Consider(remote, query, names[i]).Raised? {
          var i :| 0 <= i < |names| && Consider(remote, query, names[i]).Raised?;
          assert names[1..][i - 1] == names[i];
        }
        if SearchFrom(remote, query, names, acc).Raised? {
          var i :| && 0 <= i < |names[1..]|
                   && Consider(remote, query, names[1..][i]) == Raised(SearchFrom(remote, query, names[1..], acc').exc)
                   && forall j :: 0 <= j < i ==> Consider(remote, query, names[1..][j]).Returned?;
          assert names[1..][i] == names[i + 1];
          forall j | 0 <= j < i + 1
            ensures Consider(remote, query, names[j]).Returned?
          {
            if j > 0 {
              assert names[1..][j - 1] == names[j];
            }
          }
        }
      }
    }
  }

  /** A missing or empty index makes the search return `{}`. */
  lemma SearchWithoutIndexIsEmpty(remote: Remote, query: string)
    requires !Truthy(remote(IndexUrl()))
    ensures Search(remote, query) == Returned([])
  {
  }

  /** The search result lists a package exactly when the package is in the
      index, its info is true, and its name, description or author contains the
      query, ignoring case. */
  lemma SearchListsExactlyTheMatches(remote: Remote, query: string)
    requires Search(remote, query).Returned?
    ensures ListAllPackageNames(remote).Returned?
    ensures forall n :: n in Keys(Search(remote, query).value)
                        <==> && n in ListAllPackageNames(remote).value
                             && Truthy(GetPackageInfo(remote, n))
                             && Matches(query, n, GetPackageInfo(remote, n))
  {
    var names := ListAllPackageNames(remote).value;
    SearchFromStores(remote, query, names, []);
    forall n | n in names
      ensures Consider(remote, query, n).value.Some?
              <==> Truthy(GetPackageInfo(remote, n)) && Matches(query, n, GetPackageInfo(remote, n))
    {
      ConsiderStoresExactlyTheMatches(remote, query, n);
    }
  }

  /** Each entry of the search result holds the package's latest version, or
      "unknown" when that is missing or false, and its available versions. */
  lemma SearchEntriesHoldTheVersions(remote: Remote, query: string, n: string)
    requires Search(remote, query).Returned?
    requires n in Keys(Search(remote, query).value)
    ensures var info := GetPackageInfo(remote, n);
            && LatestVersion(info).Returned?
            && AvailableVersions(info).Returned?
            && Get(Search(remote, query).value, n)
               == Some(SearchEntry(OrUnknown(LatestVersion(info).value), AvailableVersions(info).value))
  {
    var names := ListAllPackageNames(remote).value;
    SearchFromStores(remote, query, names, []);
    ConsiderStoresExactlyTheMatches(remote, query, n);
  }

  /** The result holds no name twice, and for a decoded index it lists the
      packages in the index's order. */
  lemma SearchResultsFollowIndexOrder(remote: Remote, query: string)
    requires Search(remote, query).Returned?
    ensures NoDuplicates(Keys(Search(remote, query).value))
    ensures Parsed(remote(IndexUrl())) ==>
              IsSubsequence(Keys(Search(remote, query).value), ListAllPackageNames(remote).value)
  {
    var names := ListAllPackageNames(remote).value;
    SearchFromKeepsKeysDistinct(remote, query, names, []);
    if Parsed(remote(IndexUrl())) {
      PackageNamesAreDistinct(remote(IndexUrl()));
      SearchFromAppendsInOrder(remote, query, names, []);
      assert Search(remote, query).value[0..] == Search(remote, query).value;
    }
  }

  /** The search raises exactly when the index is a true non-object or some
      listed package's turn raises; then it raises what the first such package raises. */
  lemma SearchRaisesAtFirstFailure(remote: Remote, query: string)
    ensures ListAllPackageNames(remote).Raised? ==> Search(remote, query) == Raised(AttributeError)
    ensures ListAllPackageNames(remote).Returned? ==>
              var names := ListAllPackageNames(remote).value;
              && (Search(remote, query).Raised?
                  <==> exists i :: 0 <= i < |names| && Consider(remote, query, names[i]).Raised?)
              && (Search(remote, query).Raised? ==>
                    exists i :: && 0 <= i < |names|
                                && Consider(remote, query, names[i]) == Raised(Search(remote, query).exc)
                                && forall j :: 0 <= j < i ==> Consider(remote, query, names[j]).Returned?)
  {
    if ListAllPackageNames(remote).Returned? {
      SearchFromRaisesAtFirstFailure(remote, query, ListAllPackageNames(remote).value, []);
    }
  }

  /** On a registry whose index is an object (or missing) and whose package
      files all have the documented shape (or are missing), the search raises nothing. */
  lemma SearchOfWellFormedRegistryReturns(remote: Remote, query: string)
    requires !Truthy(remote(IndexUrl())) || remote(IndexUrl()).Obj?
    requires forall n :: n in ListAllPackageNames(remote).value ==>
               !Truthy(GetPackageInfo(remote, n)) || PackageFile(GetPackageInfo(remote, n))
    ensures Search(remote, query).Returned?
  {
    var names := ListAllPackageNames(remote).value;
    SearchFromRaisesAtFirstFailure(remote, query, names, []);
    forall i | 0 <= i < |names|
      ensures Consider(remote, query, names[i]).Returned?
    {
      ConsiderRaisesNothingOnPackageFiles(remote, query, names[i]);
    }
  }

  /** Two scans with queries that lower to the same string agree. */
  lemma {:induction false} SearchFromIgnoresQueryCase(remote: Remote, q1: string, q2: string, names: seq<string>, acc: SearchResults)
    requires Lower(q1) == Lower(q2)
    ensures SearchFrom(remote, q1, names, acc) == SearchFrom(remote, q2, names, acc)
    decreases |names|
  {
    if names != [] {
      assert Consider(remote, q1, names[0]) == Consider(remote, q2, names[0]);
      var step := Consider(remote, q1, names[0]);
      if step.Returned? {
        var acc' := if step.value.Some? then Put(acc, names[0], step.value.value) else acc;
        SearchFromIgnoresQueryCase(remote, q1, q2, names[1..], acc');
      }
    }
  }

  /** The search is case-insensitive in its query. */
  lemma SearchIgnoresQueryCase(remote: Remote, q1: string, q2: string)
    requires Lower(q1) == Lower(q2)
    ensures Search(remote, q1) == Search(remote, q2)
  {
    if ListAllPackageNames(remote).Returned? {
      SearchFromIgnoresQueryCase(remote, q1, q2, ListAllPackageNames(remote).value, []);
    }
  }

  /** Searching for the lowered query is the same search. */
  lemma SearchOfLoweredQuery(remote: Remote, query: string)
    ensures Search(remote, Lower(query)) == Search(remote, query)
  {
    LowerIdempotent(query);
    SearchIgnoresQueryCase(remote, Lower(query), query);
  }

  /** The empty query lists every indexed package whose info is true. */
  lemma EmptyQueryListsEveryPackage(remote: Remote)
    requires Search(remote, "").Returned?
    ensures forall n :: n in Keys(Search(remote, "").value)
                        <==> n in ListAllPackageNames(remote).value && Truthy(GetPackageInfo(remote, n))
  {
    SearchListsExactlyTheMatches(remote, "");
    forall n: string
      ensures Matches("", n, GetPackageInfo(remote, n))
    {
      EmptyIsEverywhere(Lower(n));
    }
  }
}
