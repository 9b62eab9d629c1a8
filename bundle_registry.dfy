// The bundle registry's in-memory part: the bundle list assembled from the
// manifest and the latest weekly release, its normalisation, and the lookup
// of a bundle by name (src/codegraphcontext/core/bundle_registry.py:20-141).

module BundleRegistry {
  import opened Wrappers
  import opened Strings

  /** A bundle record. Every key may be absent from a manifest entry, so
      every field is optional. */
  datatype Bundle = Bundle(
    name: Option<string>,
    fullName: Option<string>,
    repo: Option<string>,
    bundleName: Option<string>,
    version: Option<string>,
    commit: Option<string>,
    sizeBytes: Option<int>,
    downloadUrl: Option<string>,
    generatedAt: Option<string>,
    source: Option<string>)

  /** A release asset; `name` is always present, the rest may be missing. */
  datatype Asset = Asset(name: string, size: Option<int>, downloadUrl: Option<string>, updatedAt: Option<string>)

  /** A release with its tag and its assets (an absent asset list is empty). */
  datatype Release = Release(tagName: string, assets: seq<Asset>)

  /** The triple `find_bundle_download_info` returns. */
  datatype Answer = Answer(url: Option<string>, bundle: Option<Bundle>, error: string)

  // ---------------------------------------------------------------------
  // Python string order
  // ---------------------------------------------------------------------

  /** `a < b` on Python strings: code points compared left to right, a
      proper prefix first. */
  predicate Below(a: string, b: string)
    decreases |a|
  {
    if a == [] then b != []
    else if b == [] then false
    else a[0] < b[0] || (a[0] == b[0] && Below(a[1..], b[1..]))
  }

  lemma {:induction false} BelowIrreflexive(a: string)
    ensures !Below(a, a)
    decreases |a|
  {
    if a != [] {
      BelowIrreflexive(a[1..]);
    }
  }

  lemma {:induction false} BelowTransitive(a: string, b: string, c: string)
    requires Below(a, b) && Below(b, c)
    ensures Below(a, c)
    decreases |a|
  {
    if a != [] && a[0] == b[0] && b[0] == c[0] {
      BelowTransitive(a[1..], b[1..], c[1..]);
    }
  }

  /** Any two distinct strings are ordered one way or the other, and never
      both ways. */
  lemma {:induction false} BelowTotal(a: string, b: string)
    ensures a == b || Below(a, b) || Below(b, a)
    ensures !(Below(a, b) && Below(b, a))
    decreases |a|
  {
    if a != [] && b != [] && a[0] == b[0] {
      BelowTotal(a[1..], b[1..]);
      if a[1..] == b[1..] {
        assert a == [a[0]] + a[1..] && b == [b[0]] + b[1..];
      }
    }
  }

  // ---------------------------------------------------------------------
  // Assembling the list
  // ---------------------------------------------------------------------

  /** A manifest entry as appended: tagged on-demand, its full name taken
      from its bundle name without `.cgc` when it has one. */
  function ManifestBundle(b: Bundle): (r: Bundle)
    ensures r.source == Some("on-demand")
    ensures b.bundleName.None? ==> r.fullName == b.fullName
    ensures b.bundleName.Some? ==> r.fullName == Some(ReplaceAll(b.bundleName.value, ".cgc", ""))
    ensures r.(source := b.source, fullName := b.fullName) == b
  {
    var fullName := if b.bundleName.Some? then Some(ReplaceAll(b.bundleName.value, ".cgc", "")) else b.fullName;
    b.(source := Some("on-demand"), fullName := fullName)
  }

  /** `stem.cgc` without `.cgc` is `stem` when the stem holds no `.cgc`. */
  lemma CgcStem(stem: string)
    requires !Contains(stem, ".cgc")
    ensures ReplaceAll(stem + ".cgc", ".cgc", "") == stem
  {
    forall i | 0 <= i < |stem|
      ensures !OccursAt(stem + ".cgc", ".cgc", i)
    {
      NoEarlyCgc(stem, i);
    }
    ReplaceOnlySuffix(stem, ".cgc", "");
    assert stem + "" == stem;
  }

  /** No `.cgc` starts inside a `.cgc`-free stem followed by `.cgc`: one
      lying wholly in the stem is excluded, and one overlapping the suffix
      would need a `.` where the suffix has `c` or `g`. */
  lemma NoEarlyCgc(stem: string, i: nat)
    requires !Contains(stem, ".cgc") && i < |stem|
    ensures !OccursAt(stem + ".cgc", ".cgc", i)
  {
    var s := stem + ".cgc";
    if i + 4 <= |stem| {
      assert !OccursAt(stem, ".cgc", i);
      assert s[i..i + 4] == stem[i..i + 4];
    } else {
      var d := |stem| - i;
      assert s[|stem|] == '.' && ".cgc"[d] != '.';
    }
  }


  /** A manifest entry whose bundle name is `stem.cgc` gets the stem as its
      full name, whatever full name it carried. */
  lemma ManifestFullNameStem(b: Bundle, stem: string)
    requires b.bundleName == Some(stem + ".cgc") && !Contains(stem, ".cgc")
    ensures ManifestBundle(b).fullName == Some(stem)
  {
    CgcStem(stem);
  }

  /** A weekly release: tagged `bundles-…` but not `bundles-latest`. */
  predicate IsWeekly(r: Release) {
    StartsWith(r.tagName, "bundles-") && r.tagName != "bundles-latest"
  }

  /** The first weekly release in the list, the one taken as the latest. */
  function LatestWeekly(releases: seq<Release>): (r: Option<Release>)
    ensures r.None? <==> forall i | 0 <= i < |releases| :: !IsWeekly(releases[i])
    ensures r.Some? ==> exists i | 0 <= i < |releases| :: releases[i] == r.value && IsWeekly(r.value)
                          && forall j | 0 <= j < i :: !IsWeekly(releases[j])
    decreases |releases|
  {
    if releases == [] then None
    else if IsWeekly(releases[0]) then
      Some(releases[0])
    else
      var r := LatestWeekly(releases[1..]);
      if r.Some? then
        var i :| 0 <= i < |releases[1..]| && releases[1..][i] == r.value && IsWeekly(r.value)
                 && forall j | 0 <= j < i :: !IsWeekly(releases[1..][j]);
        assert releases[i + 1] == r.value;
        assert forall j | 0 <= j < i + 1 :: !IsWeekly(releases[j]) by {
          forall j | 0 <= j < i + 1 ensures !IsWeekly(releases[j]) {
            if j > 0 {
              assert releases[j] == releases[1..][j - 1];
            }
          }
        }
        r
      else
        assert forall j | 0 <= j < |releases| :: !IsWeekly(releases[j]) by {
          forall j | 0 <= j < |releases| ensures !IsWeekly(releases[j]) {
            if j > 0 {
              assert releases[j] == releases[1..][j - 1];
            }
          }
        }
        r
  }

  /** A bundle asset: its name ends in `.cgc`. */
  predicate IsBundleAsset(a: Asset) {
    EndsWith(a.name, ".cgc")
  }

  /** The asset carries every key the weekly record reads with `[…]`; a
      missing one raises, which ends the weekly stage. */
  predicate Complete(a: Asset) {
    a.size.Some? && a.downloadUrl.Some? && a.updatedAt.Some?
  }

  /** The `i`-th `-` part of `parts`, else `fallback`. */
  function PartOr(parts: seq<string>, i: nat, fallback: string): string {
    if i < |parts| then parts[i] else fallback
  }

  /** The weekly record for a complete bundle asset: the asset name without
      `.cgc` is the full name, whose `-` parts give the package name, the
      version and the commit. */
  function AssetBundle(a: Asset): Bundle
    requires Complete(a)
  {
    var fullName := ReplaceAll(a.name, ".cgc", "");
    var parts := Split(fullName, '-');
    Bundle(
      name := Some(parts[0]),
      fullName := Some(fullName),
      repo := Some(parts[0] + "/" + parts[0]),
      bundleName := Some(a.name),
      version := Some(PartOr(parts, 1, "latest")),
      commit := Some(PartOr(parts, 2, "unknown")),
      sizeBytes := a.size,
      downloadUrl := a.downloadUrl,
      generatedAt := a.updatedAt,
      source := Some("weekly"))
  }

  /** The records of the bundle assets in order, up to the first
      incomplete bundle asset, whose error ends the stage. */
  function AssetBundles(assets: seq<Asset>): (r: seq<Bundle>)
    ensures |r| <= |assets|
    decreases |assets|
  {
    if assets == [] then []
    else if !IsBundleAsset(assets[0]) then AssetBundles(assets[1..])
    else if !Complete(assets[0]) then []
    else [AssetBundle(assets[0])] + AssetBundles(assets[1..])
  }

  /** The weekly stage: the bundle assets of the latest weekly release. */
  function WeeklyBundles(releases: seq<Release>): seq<Bundle> {
    match LatestWeekly(releases)
    case None => []
    case Some(r) => AssetBundles(r.assets)
  }

  /** The list before normalisation: the manifest entries (when the manifest
      could be read), then the weekly records (when the releases could). */
  function Collected(manifest: Option<seq<Bundle>>, releases: Option<seq<Release>>): seq<Bundle> {
    (if manifest.Some? then seq(|manifest.value|, i requires 0 <= i < |manifest.value| => ManifestBundle(manifest.value[i])) else [])
    + (if releases.Some? then WeeklyBundles(releases.value) else [])
  }

  // ---------------------------------------------------------------------
  // Normalisation
  // ---------------------------------------------------------------------

  /** The last `/` part of a repository name. */
  function RepoTail(repo: string): string {
    var parts := Split(repo, '/');
    parts[|parts| - 1]
  }

  /** A bundle with a `name` and a `full_name`: a missing name is the last
      `/` part of the repository when it has a `/`, else the first `-` part
      of the full name (or bundle name, or "unknown"); a missing full name is
      the bundle name (or the name just settled) without `.cgc`. Present
      keys and all other fields are kept. */
  function Normalize(b: Bundle): Bundle {
    var name :=
      if b.name.Some? then b.name
      else
        var repo := b.repo.GetOr("");
        if '/' in repo then Some(RepoTail(repo))
        else
          var fullName := if b.fullName.Some? then b.fullName.value else b.bundleName.GetOr("unknown");
          Some(Split(fullName, '-')[0]);
    var fullName :=
      if b.fullName.Some? then b.fullName
      else Some(ReplaceAll(if b.bundleName.Some? then b.bundleName.value else name.value, ".cgc", ""));
    b.(name := name, fullName := fullName)
  }

  /** Normalisation fills in both names, keeps a name that is present, and
      touches no other field. */
  lemma NormalizeSpec(b: Bundle)
    ensures Normalize(b).name.Some? && Normalize(b).fullName.Some?
    ensures b.name.Some? ==> Normalize(b).name == b.name
    ensures b.fullName.Some? ==> Normalize(b).fullName == b.fullName
    ensures Normalize(b).(name := b.name, fullName := b.fullName) == b
  {
  }

  /** A missing name is the repository's last `/` part when the repository
      has a `/`; otherwise it is the text before the first `-` of the full
      name, else of the bundle name, else of "unknown". */
  lemma NormalizeNameSpec(b: Bundle)
    requires b.name.None?
    ensures '/' in b.repo.GetOr("") ==> Normalize(b).name == Some(RepoTail(b.repo.value))
    ensures '/' !in b.repo.GetOr("") ==>
      HeadPart(if b.fullName.Some? then b.fullName.value else b.bundleName.GetOr("unknown"), '-', Normalize(b).name.value)
  {
    var fullName := if b.fullName.Some? then b.fullName.value else b.bundleName.GetOr("unknown");
    SplitHead(fullName, '-');
  }

  /** A missing full name is the bundle name `stem.cgc` without `.cgc`, and,
      with no bundle name either, the settled name itself when it holds no
      `.cgc`. */
  lemma NormalizeFullNameSpec(b: Bundle, stem: string)
    requires b.fullName.None?
    ensures b.bundleName == Some(stem + ".cgc") && !Contains(stem, ".cgc") ==> Normalize(b).fullName == Some(stem)
    ensures b.bundleName.None? && !Contains(Normalize(b).name.value, ".cgc") ==> Normalize(b).fullName == Normalize(b).name
  {
    if b.bundleName == Some(stem + ".cgc") && !Contains(stem, ".cgc") {
      CgcStem(stem);
    }
  }

  /** The normalisation loop: every bundle of the list normalised in place. */
  method NormalizeAll(a: array<Bundle>)
    modifies a
    ensures forall i | 0 <= i < a.Length :: a[i] == Normalize(old(a[i]))
  {
    for i := 0 to a.Length
      invariant forall j | 0 <= j < i :: a[j] == Normalize(old(a[j]))
      invariant forall j | i <= j < a.Length :: a[j] == old(a[j])
    {
      a[i] := Normalize(a[i]);
    }
  }

  /** `fetch_available_bundles` after its two fetches: the manifest entries,
      the weekly records, all normalised. */
  method FetchAvailableBundles(manifest: Option<seq<Bundle>>, releases: Option<seq<Release>>) returns (bundles: seq<Bundle>)
    ensures |bundles| == |Collected(manifest, releases)|
    ensures forall i | 0 <= i < |bundles| :: bundles[i] == Normalize(Collected(manifest, releases)[i])
  {
    var all: seq<Bundle> := [];
    if manifest.Some? {
      for i := 0 to |manifest.value|
        invariant all == seq(i, k requires 0 <= k < i => ManifestBundle(manifest.value[k]))
      {
        all := all + [ManifestBundle(manifest.value[i])];
      }
    }
    ghost var fromManifest := all;
    if releases.Some? {
      var weekly := LatestWeekly(releases.value);
      if weekly.Some? {
        var assets := weekly.value.assets;
        var i := 0;
        while i < |assets|
          invariant 0 <= i <= |assets|
          invariant all + AssetBundles(assets[i..]) == fromManifest + AssetBundles(assets)
        {
          var asset := assets[i];
          assert assets[i..][1..] == assets[i + 1..];
          if IsBundleAsset(asset) {
            if !Complete(asset) {
              break;
            }
            all := all + [AssetBundle(asset)];
          }
          i := i + 1;
        }
        assert AssetBundles(assets[i..]) == [] by {
          if i < |assets| {
            assert assets[i..][0] == assets[i];
          }
        }
        assert all == all + AssetBundles(assets[i..]);
      }
    }
    var a := new Bundle[|all|](k requires 0 <= k < |all| => all[k]);
    NormalizeAll(a);
    bundles := a[..];
  }

  // ---------------------------------------------------------------------
  // Lookup
  // ---------------------------------------------------------------------

  /** `b.get('full_name', '').lower() == name.lower()`. */
  predicate FullNameMatches(b: Bundle, name: string) {
    Lower(b.fullName.GetOr("")) == Lower(name)
  }

  /** `b.get('name', '').lower() == name.lower()`. */
  predicate NameMatches(b: Bundle, name: string) {
    Lower(b.name.GetOr("")) == Lower(name)
  }

  /** `x.get('generated_at', '')`, the sort key of stage 2. */
  function Key(b: Bundle): string {
    b.generatedAt.GetOr("")
  }

  /** The position of the first bundle whose full name matches. */
  function FirstFullMatch(bundles: seq<Bundle>, name: string): (r: Option<nat>)
    ensures r.None? <==> forall i | 0 <= i < |bundles| :: !FullNameMatches(bundles[i], name)
    ensures r.Some? ==> r.value < |bundles| && FullNameMatches(bundles[r.value], name)
                          && forall j | 0 <= j < r.value :: !FullNameMatches(bundles[j], name)
  {
    if bundles == [] then None
    else
      var front := bundles[..|bundles| - 1];
      var r := FirstFullMatch(front, name);
      assert forall i | 0 <= i < |front| :: front[i] == bundles[i];
      if r.Some? then r
      else if FullNameMatches(bundles[|bundles| - 1], name) then Some(|bundles| - 1)
      else None
  }

  /** `matching_bundles`: the bundles whose name matches, in list order. */
  function NameMatching(bundles: seq<Bundle>, name: string): (r: seq<Bundle>)
    ensures forall b | b in r :: NameMatches(b, name)
  {
    if bundles == [] then []
    else
      var front := NameMatching(bundles[..|bundles| - 1], name);
      var b := bundles[|bundles| - 1];
      if NameMatches(b, name) then front + [b] else front
  }

  /** The position of the head of `ms` sorted newest first by a stable
      sort: the first bundle with the greatest key. */
  function Newest(ms: seq<Bundle>): (r: nat)
    requires ms != []
    ensures r < |ms|
  {
    if |ms| == 1 then 0
    else
      var p := Newest(ms[..|ms| - 1]);
      if Below(Key(ms[p]), Key(ms[|ms| - 1])) then |ms| - 1 else p
  }

  /** The answer for a chosen bundle: its URL when it has a non-empty one,
      else the missing-URL message. */
  function Reply(b: Bundle, name: string): (r: Answer)
    ensures r.bundle == Some(b)
    ensures r.error == "" <==> r.url.Some?
    ensures r.url.Some? <==> b.downloadUrl.Some? && b.downloadUrl.value != ""
    ensures r.url.Some? ==> r.url == b.downloadUrl
  {
    if b.downloadUrl.Some? && b.downloadUrl.value != "" then Answer(b.downloadUrl, Some(b), "")
    else Answer(None, Some(b), "No download URL found for bundle '" + name + "'")
  }

  /** What `find_bundle_download_info` returns for a bundle list. */
  function Find(bundles: seq<Bundle>, name: string): Answer {
    if bundles == [] then Answer(None, None, "Could not fetch bundle registry.")
    else match FirstFullMatch(bundles, name)
      case Some(i) => Reply(bundles[i], name)
      case None =>
        var ms := NameMatching(bundles, name);
        if ms == [] then Answer(None, None, "Bundle '" + name + "' not found in registry.")
        else Reply(ms[Newest(ms)], name)
  }

  /** `bundles[i]` is the newest name match, and the earliest among the
      equally new ones. */
  predicate NewestAt(bundles: seq<Bundle>, name: string, i: int) {
    0 <= i < |bundles| && NameMatches(bundles[i], name)
    && (forall j | 0 <= j < |bundles| && NameMatches(bundles[j], name) :: !Below(Key(bundles[i]), Key(bundles[j])))
    && (forall j | 0 <= j < i && NameMatches(bundles[j], name) :: Below(Key(bundles[j]), Key(bundles[i])))
  }

  /** No name match is found exactly when no bundle's name matches. */
  lemma {:induction false} NameMatchingEmpty(bundles: seq<Bundle>, name: string)
    ensures NameMatching(bundles, name) == [] <==> forall i | 0 <= i < |bundles| :: !NameMatches(bundles[i], name)
  {
    if bundles != [] {
      var front := bundles[..|bundles| - 1];
      NameMatchingEmpty(front, name);
      assert forall i | 0 <= i < |front| :: front[i] == bundles[i];
    }
  }

  /** The head of the newest-first order of the name matches is the newest
      name match of the list, ties going to the one listed first. */
  lemma {:induction false} NewestIsNewestAt(bundles: seq<Bundle>, name: string)
    requires NameMatching(bundles, name) != []
    ensures exists i :: NewestAt(bundles, name, i) && bundles[i] == NameMatching(bundles, name)[Newest(NameMatching(bundles, name))]
  {
    var front := bundles[..|bundles| - 1];
    var x := bundles[|bundles| - 1];
    var msf := NameMatching(front, name);
    if !NameMatches(x, name) {
      NewestIsNewestAt(front, name);
      var i :| NewestAt(front, name, i) && front[i] == msf[Newest(msf)];
      KeepsNewest(bundles, name, i);
    } else if msf == [] {
      NameMatchingEmpty(front, name);
      FirstMatchNewest(bundles, name);
    } else {
      NewestIsNewestAt(front, name);
      var ms := msf + [x];
      assert ms[..|ms| - 1] == msf;
      var p := Newest(msf);
      var i :| NewestAt(front, name, i) && front[i] == msf[p];
      if Below(Key(msf[p]), Key(x)) {
        NewcomerNewest(bundles, name, i);
      } else {
        KeepsNewest(bundles, name, i);
      }
    }
  }

  /** A last bundle that does not match, or is not newer, leaves the newest
      name match where it was. */
  lemma KeepsNewest(bundles: seq<Bundle>, name: string, i: nat)
    requires |bundles| > 0 && NewestAt(bundles[..|bundles| - 1], name, i)
    requires NameMatches(bundles[|bundles| - 1], name) ==> !Below(Key(bundles[i]), Key(bundles[|bundles| - 1]))
    ensures NewestAt(bundles, name, i)
  {
    var front := bundles[..|bundles| - 1];
    assert forall j | 0 <= j < |front| :: front[j] == bundles[j];
  }

  /** A last bundle that is the only name match is the newest one. */
  lemma FirstMatchNewest(bundles: seq<Bundle>, name: string)
    requires |bundles| > 0 && NameMatches(bundles[|bundles| - 1], name)
    requires forall j | 0 <= j < |bundles| - 1 :: !NameMatches(bundles[j], name)
    ensures NewestAt(bundles, name, |bundles| - 1)
  {
    BelowIrreflexive(Key(bundles[|bundles| - 1]));
  }

  /** A last bundle newer than the newest name match before it is the
      newest name match of the whole list. */
  lemma NewcomerNewest(bundles: seq<Bundle>, name: string, i: nat)
    requires |bundles| > 0 && NameMatches(bundles[|bundles| - 1], name)
    requires NewestAt(bundles[..|bundles| - 1], name, i)
    requires Below(Key(bundles[i]), Key(bundles[|bundles| - 1]))
    ensures NewestAt(bundles, name, |bundles| - 1)
  {
    var front := bundles[..|bundles| - 1];
    var x := bundles[|bundles| - 1];
    assert forall j | 0 <= j < |front| :: front[j] == bundles[j];
    forall j | 0 <= j < |bundles| && NameMatches(bundles[j], name)
      ensures !Below(Key(x), Key(bundles[j])) && (j < |front| ==> Below(Key(bundles[j]), Key(x)))
    {
      if j < |front| {
        BelowTotal(Key(bundles[j]), Key(bundles[i]));
        if Key(bundles[j]) != Key(bundles[i]) {
          BelowTransitive(Key(bundles[j]), Key(bundles[i]), Key(x));
        }
        BelowTotal(Key(bundles[j]), Key(x));
      } else {
        BelowIrreflexive(Key(x));
      }
    }
  }

  /** The lookup's contract: an empty list is a fetch failure; otherwise the
      first full-name match wins; failing that, the newest name match (the
      first listed among equally new ones); failing that, not found. */
  lemma FindSpec(bundles: seq<Bundle>, name: string)
    ensures bundles == [] ==> Find(bundles, name) == Answer(None, None, "Could not fetch bundle registry.")
    ensures forall i | 0 <= i < |bundles| && FullNameMatches(bundles[i], name)
                       && (forall j | 0 <= j < i :: !FullNameMatches(bundles[j], name)) ::
              Find(bundles, name) == Reply(bundles[i], name)
    ensures (forall i | 0 <= i < |bundles| :: !FullNameMatches(bundles[i], name))
            && (exists i | 0 <= i < |bundles| :: NameMatches(bundles[i], name)) ==>
              exists i :: NewestAt(bundles, name, i) && Find(bundles, name) == Reply(bundles[i], name)
    ensures Find(bundles, name).bundle.None? <==>
              forall i | 0 <= i < |bundles| :: !FullNameMatches(bundles[i], name) && !NameMatches(bundles[i], name)
    ensures bundles != [] && Find(bundles, name).bundle.None? ==>
              Find(bundles, name) == Answer(None, None, "Bundle '" + name + "' not found in registry.")
  {
    NameMatchingEmpty(bundles, name);
    if FirstFullMatch(bundles, name).None? && NameMatching(bundles, name) != [] {
      NewestIsNewestAt(bundles, name);
    }
  }

  /** Stage 2 after the matches are collected: the head of the matches
      sorted newest first. */
  method NewestOf(ms: seq<Bundle>) returns (best: nat)
    requires ms != []
    ensures best == Newest(ms)
  {
    best := 0;
    for k := 1 to |ms|
      invariant best == Newest(ms[..k])
    {
      assert ms[..k + 1][..k] == ms[..k];
      if Below(Key(ms[best]), Key(ms[k])) {
        best := k;
      }
    }
    assert ms[..|ms|] == ms;
  }

  /** `find_bundle_download_info` over an already fetched bundle list. */
  method FindBundleDownloadInfo(bundles: seq<Bundle>, name: string) returns (r: Answer)
    ensures r == Find(bundles, name)
  {
    if bundles == [] {
      return Answer(None, None, "Could not fetch bundle registry.");
    }
    for i := 0 to |bundles|
      invariant forall j | 0 <= j < i :: !FullNameMatches(bundles[j], name)
    {
      if Lower(bundles[i].fullName.GetOr("")) == Lower(name) {
        return Reply(bundles[i], name);
      }
    }
    var matching: seq<Bundle> := [];
    for i := 0 to |bundles|
      invariant matching == NameMatching(bundles[..i], name)
    {
      assert bundles[..i + 1][..i] == bundles[..i];
      if Lower(bundles[i].name.GetOr("")) == Lower(name) {
        matching := matching + [bundles[i]];
      }
    }
    assert bundles[..|bundles|] == bundles;
    if matching != [] {
      var best := NewestOf(matching);
      return Reply(matching[best], name);
    }
    return Answer(None, None, "Bundle '" + name + "' not found in registry.");
  }

  // ---------------------------------------------------------------------
  // Properties of the assembled list
  // ---------------------------------------------------------------------

  /** After normalisation every bundle has a name and a full name. */
  lemma FetchedHaveNames(manifest: Option<seq<Bundle>>, releases: Option<seq<Release>>, bundles: seq<Bundle>)
    requires |bundles| == |Collected(manifest, releases)|
    requires forall i | 0 <= i < |bundles| :: bundles[i] == Normalize(Collected(manifest, releases)[i])
    ensures forall b | b in bundles :: b.name.Some? && b.fullName.Some?
  {
    forall b | b in bundles ensures b.name.Some? && b.fullName.Some? {
      var i :| 0 <= i < |bundles| && bundles[i] == b;
      NormalizeSpec(Collected(manifest, releases)[i]);
    }
  }

  /** Normalising twice changes nothing more. */
  lemma NormalizeIdempotent(b: Bundle)
    ensures Normalize(Normalize(b)) == Normalize(b)
  {
    NormalizeSpec(b);
    NormalizeSpec(Normalize(b));
  }

  /** A weekly record already has both names, so normalisation keeps it. */
  lemma WeeklyNormalized(a: Asset)
    requires Complete(a)
    ensures Normalize(AssetBundle(a)) == AssetBundle(a)
  {
    NormalizeSpec(AssetBundle(a));
  }

  /** The weekly records come from bundle assets of the latest weekly
      release, in order, one per asset up to the first incomplete one. */
  lemma {:induction false} AssetBundlesFrom(assets: seq<Asset>)
    ensures forall b | b in AssetBundles(assets) ::
      exists a | a in assets :: IsBundleAsset(a) && Complete(a) && b == AssetBundle(a)
    ensures (forall a | a in assets :: IsBundleAsset(a) ==> Complete(a)) ==>
      forall a | a in assets && IsBundleAsset(a) :: AssetBundle(a) in AssetBundles(assets)
    decreases |assets|
  {
    if assets != [] {
      AssetBundlesFrom(assets[1..]);
      assert forall a | a in assets[1..] :: a in assets;
      assert forall a | a in assets :: a == assets[0] || a in assets[1..];
    }
  }

  /** Joining a prefix of the parts gives a prefix of the whole, followed by
      the separator when parts remain. */
  lemma {:induction false} JoinPrefix(parts: seq<string>, sep: char, n: nat)
    requires 1 <= n <= |parts|
    ensures StartsWith(Join(parts, sep), Join(parts[..n], sep))
    ensures n < |parts| ==> StartsWith(Join(parts, sep), Join(parts[..n], sep) + [sep])
    decreases |parts|
  {
    if n == |parts| {
      assert parts[..n] == parts;
    } else {
      var front := parts[..|parts| - 1];
      assert front[..n] == parts[..n];
      assert Join(parts, sep) == Join(front, sep) + [sep] + parts[|parts| - 1];
      JoinPrefix(front, sep, n);
      if n == |front| {
        assert front[..n] == front;
      }
    }
  }

  /** An asset named `stem.cgc`, with no `.cgc` inside the stem, has the
      stem as its full name. */
  lemma AssetFullNameStem(a: Asset, stem: string)
    requires Complete(a) && a.name == stem + ".cgc" && !Contains(stem, ".cgc")
    ensures AssetBundle(a).fullName == Some(stem)
  {
    CgcStem(stem);
  }

  /** The package name is the full name's text before its first `-`, and
      the repository is that name twice; the version is the text after it up
      to the next `-`, else `latest`; the commit is the text after the
      version up to the next `-`, else `unknown`. */
  lemma AssetNameParts(a: Asset)
    requires Complete(a)
    ensures var b := AssetBundle(a);
      var full := b.fullName.value;
      var n := b.name.value;
      var v := b.version.value;
      && full == ReplaceAll(a.name, ".cgc", "")
      && b.repo == Some(n + "/" + n)
      && HeadPart(full, '-', n)
      && (full == n ==> b.version == Some("latest") && b.commit == Some("unknown"))
      && (full != n ==>
            var rest := full[|n| + 1..];
            && HeadPart(rest, '-', v)
            && (rest == v ==> b.commit == Some("unknown"))
            && (rest != v ==> HeadPart(rest[|v| + 1..], '-', b.commit.value)))
  {
    var full := ReplaceAll(a.name, ".cgc", "");
    var parts := Split(full, '-');
    JoinHead(parts, '-');
    if |parts| > 1 {
      var tail := parts[1..];
      JoinHead(tail, '-');
      if |tail| > 1 {
        JoinHead(tail[1..], '-');
        assert tail[1..][0] == parts[2];
      }
    }
  }

  /** The last `/` part of a repository name has no `/` and ends it, after a
      `/`, when the name has one. */
  lemma RepoTailSpec(repo: string)
    requires '/' in repo
    ensures '/' !in RepoTail(repo)
    ensures EndsWith(repo, "/" + RepoTail(repo))
  {
    var parts := Split(repo, '/');
    assert |parts| != 1;
    var front := parts[..|parts| - 1];
    assert Join(parts, '/') == Join(front, '/') + ['/'] + parts[|parts| - 1];
    assert repo[|repo| - |"/" + RepoTail(repo)|..] == "/" + RepoTail(repo);
  }
}
