/** Concrete registries and what the queries answer on them. */
module Scenarios {
  import opened Wrappers
  import opened PyStr
  import opened PyDict
  import opened JsonValue
  import opened Registry

  /** `{"latest": "2.0", "1.0": {...}, "2.0": {...}}`: the explicit entry wins. */
  lemma ExplicitLatestWins()
    ensures LatestVersion(Obj([("versions", Obj([("latest", Str("2.0")), ("1.0", Obj([])), ("2.0", Obj([]))]))]))
            == Returned(Str("2.0"))
  {
  }

  /** `{"1.0": {...}, "2.0": {...}}`: the greatest label. */
  lemma GreatestLabelWithoutLatest()
    ensures LatestVersion(Obj([("versions", Obj([("1.0", Obj([])), ("2.0", Obj([]))]))]))
            == Returned(Str("2.0"))
  {
    var info := Obj([("versions", Obj([("1.0", Obj([])), ("2.0", Obj([]))]))]);
    assert LessEq("1.0", "2.0");
    MaxIsUnique(["1.0", "2.0"], "2.0");
  }

  /** The order is on code points, not on version numbers: "9.0" beats "10.0". */
  lemma CodePointOrderIsNotNumeric()
    ensures LatestVersion(Obj([("versions", Obj([("9.0", Obj([])), ("10.0", Obj([]))]))]))
            == Returned(Str("9.0"))
  {
    assert LessEq("10.0", "9.0");
    MaxIsUnique(["9.0", "10.0"], "9.0");
  }

  /** `{"1.0": {"download": "http://x/1.0.zip"}}`: the URL for "1.0", nothing for "9.9". */
  lemma DownloadUrlOfListedVersion()
    ensures var info := Obj([("versions", Obj([("1.0", Obj([("download", Str("http://x/1.0.zip"))]))]))]);
            && VersionDownloadUrl(info, "1.0") == Returned(Str("http://x/1.0.zip"))
            && VersionDownloadUrl(info, "9.9") == Returned(Null)
  {
  }

  /** The `"latest"` pointer is a string, not a version object: it has no download URL. */
  lemma LatestPointerHasNoDownload()
    ensures VersionDownloadUrl(Obj([("versions", Obj([("latest", Str("1.0")), ("1.0", Obj([("download", Str("u"))]))]))]), "latest")
            == Returned(Null)
  {
  }

  const DemoInfo: Json :=
    Obj([("description", Str("demo")), ("author", Str("alice")),
         ("versions", Obj([("latest", Str("1.2")), ("1.0", Obj([])), ("1.2", Obj([]))]))])

  /** A registry with the single package "pkg-a". */
  function DemoRemote(): Remote
  {
    url => if url == IndexUrl() then Obj([("pkg-a", Num(1))])
           else if url == PackageUrl("pkg-a") then DemoInfo
           else Null
  }

  lemma DemoVersions()
    ensures LatestVersion(DemoInfo) == Returned(Str("1.2"))
    ensures AvailableVersions(DemoInfo) == Returned(["1.0", "1.2"])
  {
    var vs := [("latest", Str("1.2")), ("1.0", Obj([])), ("1.2", Obj([]))];
    assert VersionsOf(DemoInfo) == Obj(vs);
    assert Keys(vs) == ["latest", "1.0", "1.2"];
    assert WithoutLatest(["latest", "1.0", "1.2"]) == ["1.0", "1.2"];
    assert Get(vs, "latest") == Some(Str("1.2"));
  }

  lemma DemoNameDoesNotMatch()
    ensures !ContainsIgnoringCase("pkg-a", "demo")
  {
    assert Lower("demo") == "demo";
    assert Lower("pkg-a") == "pkg-a";
    LongerIsNotContained("g-a", "demo");
    assert "pkg-a"[1..] == "kg-a" && "kg-a"[1..] == "g-a";
    assert "pkg-a"[0] != "demo"[0] && "kg-a"[0] != "demo"[0];
  }

  /** The one package of the demo registry matches "demo" by its description. */
  lemma DemoPackageMatchesByDescription()
    ensures Consider(DemoRemote(), "demo", "pkg-a") == Returned(Some(SearchEntry(Str("1.2"), ["1.0", "1.2"])))
  {
    var remote := DemoRemote();
    assert GetPackageInfo(remote, "pkg-a") == DemoInfo;
    DemoNameDoesNotMatch();
    assert Lower("demo") == "demo";
    assert ContainsIgnoringCase("demo", "demo");
    assert GetOr(DemoInfo.fields, "description", Str("")) == Str("demo");
    DemoVersions();
  }

  /** Searching "demo" finds "pkg-a" through its description. */
  lemma SearchFindsByDescription()
    ensures Search(DemoRemote(), "demo")
            == Returned([("pkg-a", SearchEntry(Str("1.2"), ["1.0", "1.2"]))])
  {
    var remote := DemoRemote();
    assert Keys([("pkg-a", Num(1))]) == ["pkg-a"];
    assert ListAllPackageNames(remote) == Returned(["pkg-a"]);
    DemoPackageMatchesByDescription();
  }

  /** A registry where the query "foo" matches "foobar" by name only. */
  function FooRemote(): Remote
  {
    url => if url == IndexUrl() then Obj([("foobar", Num(1)), ("baz", Num(1))])
           else if url == PackageUrl("foobar") then FoobarInfo
           else if url == PackageUrl("baz") then BazInfo
           else Null
  }

  const FoobarInfo: Json := Obj([("description", Str("x")), ("versions", Obj([("1.0", Obj([]))]))])
  const BazInfo: Json := Obj([("description", Str("y")), ("author", Str("z"))])

  lemma FooPackageFiles()
    ensures GetPackageInfo(FooRemote(), "foobar") == FoobarInfo
    ensures GetPackageInfo(FooRemote(), "baz") == BazInfo
    ensures ListAllPackageNames(FooRemote()) == Returned(["foobar", "baz"])
  {
    assert PackageUrl("foobar") != PackageUrl("baz") by {
      if PackageUrl("foobar") == PackageUrl("baz") {
        PackageUrlInjective("foobar", "baz");
      }
    }
    assert PackageUrl("foobar") != IndexUrl() && PackageUrl("baz") != IndexUrl() by {
      assert |PackageUrl("baz")| != |IndexUrl()| && |PackageUrl("foobar")| != |IndexUrl()|;
    }
    assert Keys([("foobar", Num(1)), ("baz", Num(1))]) == ["foobar", "baz"];
  }

  /** "FOO" matches the name "foobar", which is entered with its one version. */
  lemma FoobarMatchesByName()
    ensures Consider(FooRemote(), "FOO", "foobar") == Returned(Some(SearchEntry(Str("1.0"), ["1.0"])))
  {
    FooPackageFiles();
    assert Lower("FOO") == "foo";
    assert Lower("foobar") == "foobar";
    assert "foobar"[..3] == "foo";
    assert Contains("foobar", "foo");
    var vs := [("1.0", Obj([]))];
    assert VersionsOf(FoobarInfo) == Obj(vs);
    assert Keys(vs) == ["1.0"];
    assert WithoutLatest(["1.0"]) == ["1.0"];
    assert Max(["1.0"]) == "1.0";
  }

  /** Nothing about "baz" contains "foo". */
  lemma BazDoesNotMatch()
    ensures Consider(FooRemote(), "FOO", "baz") == Returned(None)
  {
    FooPackageFiles();
    assert Lower("FOO") == "foo";
    assert Lower("baz") == "baz" && Lower("y") == "y" && Lower("z") == "z";
    assert !Contains("baz", "foo") by {
      LongerIsNotContained("az", "foo");
      assert "baz"[1..] == "az";
      assert "baz"[..3] == "baz" && "baz"[0] != "foo"[0];
    }
    LongerIsNotContained("y", "foo");
    LongerIsNotContained("z", "foo");
  }

  /** "FOO" matches the name "foobar" and nothing about "baz". */
  lemma SearchMatchesNameIgnoringCase()
    ensures Search(FooRemote(), "FOO") == Returned([("foobar", SearchEntry(Str("1.0"), ["1.0"]))])
  {
    FooPackageFiles();
    FoobarMatchesByName();
    BazDoesNotMatch();
  }

  /** A registry whose only package file is a list. */
  function ListRemote(): Remote
  {
    url => if url == IndexUrl() then Obj([("p", Num(1))]) else Arr([Num(1)])
  }

  /** A package file that is a list, not an object, makes the search raise. */
  lemma SearchRaisesOnNonObjectPackageFile()
    ensures Search(ListRemote(), "q") == Raised(AttributeError)
  {
    var remote := ListRemote();
    assert PackageUrl("p") != IndexUrl() by {
      assert |PackageUrl("p")| != |IndexUrl()|;
    }
    assert remote(IndexUrl()) == Obj([("p", Num(1))]);
    assert Keys([("p", Num(1))]) == ["p"];
    assert ListAllPackageNames(remote) == Returned(["p"]);
    assert Lower("p") == "p" && Lower("q") == "q";
    assert !Contains("p", "q") by {
      LongerIsNotContained([], "q");
      assert "p"[..1] == "p" && "p"[0] != "q"[0];
    }
  }
}
