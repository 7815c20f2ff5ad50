/** The app catalogue service: the list of available apps assembled from
    every catalogue's preferred trains with an `installed` flag, the latest
    updated apps, the sorted categories, and the apps similar to a given one.
    The catalogue contents, the installed releases and the mapped categories
    come from middleware calls and are parameters here. */
module CatalogApps {

  import opened Wrappers
  import opened Values
  import opened Sorting

  /** One app's catalogue entry, and one emitted record. */
  type AppData = map<string, Value>
  type Record = map<string, Value>

  /** A train and its apps, in the order `catalog.items` lists them. */
  datatype Train = Train(name: string, apps: seq<AppData>)

  datatype Catalog = Catalog(catalogLabel: string, preferredTrains: seq<string>, trains: seq<Train>)

  /** An installed chart release: its chart name, catalogue and train. */
  datatype Release = Release(chartName: string, catalog: string, catalogTrain: string)

  datatype LookupError = MatchNotFound

  /** Every catalogue entry names its app. */
  predicate AppsHaveNames(catalogs: seq<Catalog>) {
    forall c, t, a :: c in catalogs && t in c.trains && a in t.apps ==> "name" in a
  }

  /** The `(name, catalogue, train)` triples of the installed releases. */
  function InstalledTriples(releases: seq<Release>): (triples: seq<(Value, string, string)>)
    ensures forall name, catalogLabel, train ::
      (name, catalogLabel, train) in triples <==> name.Str? && Release(name.s, catalogLabel, train) in releases
    decreases |releases|
  {
    if releases == [] then []
    else
      var r := releases[0];
      [(Str(r.chartName), r.catalog, r.catalogTrain)] + InstalledTriples(releases[1..])
  }

  /** The record emitted for one app: catalogue label, installed flag and
      train, then every field of the app, which wins over those three. */
  function MakeRecord(catalogLabel: string, train: string, app: AppData, triples: seq<(Value, string, string)>): (rec: Record)
    requires "name" in app
    ensures forall k :: k in rec <==> k in app || k == "catalog" || k == "installed" || k == "train"
    ensures forall k :: k in app ==> rec[k] == app[k]
    ensures "catalog" !in app ==> rec["catalog"] == Str(catalogLabel)
    ensures "train" !in app ==> rec["train"] == Str(train)
    ensures "installed" !in app ==>
      (rec["installed"] == Bool(true) <==> (app["name"], catalogLabel, train) in triples) &&
      rec["installed"].Bool?
  {
    map["catalog" := Str(catalogLabel),
        "installed" := Bool((app["name"], catalogLabel, train) in triples),
        "train" := Str(train)] + app
  }

  // ---------------------------------------------------------- available

  /** The records for the apps of one train, in order. */
  function TrainRecords(catalogLabel: string, train: string, apps: seq<AppData>,
                        triples: seq<(Value, string, string)>): (recs: seq<Record>)
    requires forall a :: a in apps ==> "name" in a
    ensures |recs| == |apps|
    ensures forall i :: 0 <= i < |recs| ==> "catalog" in recs[i] && "installed" in recs[i] && "train" in recs[i]
    decreases |apps|
  {
    if apps == [] then []
    else
      TrainRecords(catalogLabel, train, apps[..|apps| - 1], triples) +
      [MakeRecord(catalogLabel, train, apps[|apps| - 1], triples)]
  }

  /** The records for one catalogue's trains, skipping trains it does not
      prefer. */
  function CatalogRecords(catalogLabel: string, preferred: seq<string>, trains: seq<Train>,
                          triples: seq<(Value, string, string)>): (recs: seq<Record>)
    requires forall t, a :: t in trains && a in t.apps ==> "name" in a
    ensures forall i :: 0 <= i < |recs| ==> "catalog" in recs[i] && "installed" in recs[i] && "train" in recs[i]
    decreases |trains|
  {
    if trains == [] then []
    else
      var t := trains[|trains| - 1];
      CatalogRecords(catalogLabel, preferred, trains[..|trains| - 1], triples) +
      (if t.name in preferred then TrainRecords(catalogLabel, t.name, t.apps, triples) else [])
  }

  /** The records for all catalogues, in order. */
  function AvailableRecords(catalogs: seq<Catalog>, triples: seq<(Value, string, string)>): (recs: seq<Record>)
    requires AppsHaveNames(catalogs)
    ensures forall i :: 0 <= i < |recs| ==> "catalog" in recs[i] && "installed" in recs[i] && "train" in recs[i]
    decreases |catalogs|
  {
    if catalogs == [] then []
    else
      var c := catalogs[|catalogs| - 1];
      AvailableRecords(catalogs[..|catalogs| - 1], triples) +
      CatalogRecords(c.catalogLabel, c.preferredTrains, c.trains, triples)
  }

  /** `AppService.available` without its filters: the loop over the
      catalogues, their trains and the trains' apps. */
  method Available(catalogs: seq<Catalog>, releases: seq<Release>) returns (results: seq<Record>)
    requires AppsHaveNames(catalogs)
    ensures results == AvailableRecords(catalogs, InstalledTriples(releases))
  {
    var installedApps := InstalledTriples(releases);
    results := [];
    var ci := 0;
    while ci < |catalogs|
      invariant ci <= |catalogs|
      invariant results == AvailableRecords(catalogs[..ci], installedApps)
    {
      assert catalogs[..ci + 1][..ci] == catalogs[..ci];
      results := AppendCatalog(results, catalogs[ci], installedApps);
      ci := ci + 1;
    }
    assert catalogs[..ci] == catalogs;
  }

  /** The middle loop of `available`: the trains of one catalogue, skipping
      the ones it does not prefer. */
  method AppendCatalog(results: seq<Record>, catalog: Catalog, installedApps: seq<(Value, string, string)>)
    returns (extended: seq<Record>)
    requires forall t, a :: t in catalog.trains && a in t.apps ==> "name" in a
    ensures extended ==
      results + CatalogRecords(catalog.catalogLabel, catalog.preferredTrains, catalog.trains, installedApps)
  {
    extended := results;
    var ti := 0;
    while ti < |catalog.trains|
      invariant ti <= |catalog.trains|
      invariant extended ==
        results + CatalogRecords(catalog.catalogLabel, catalog.preferredTrains, catalog.trains[..ti], installedApps)
    {
      var train := catalog.trains[ti];
      assert catalog.trains[..ti + 1][..ti] == catalog.trains[..ti];
      if train.name !in catalog.preferredTrains {
        ti := ti + 1;
        continue;
      }
      extended := AppendTrain(extended, catalog.catalogLabel, train, installedApps);
      ti := ti + 1;
    }
    assert catalog.trains[..ti] == catalog.trains;
  }

  /** The inner loop of `available`: one record per app of a train. */
  method AppendTrain(results: seq<Record>, catalogLabel: string, train: Train, installedApps: seq<(Value, string, string)>)
    returns (extended: seq<Record>)
    requires forall a :: a in train.apps ==> "name" in a
    ensures extended == results + TrainRecords(catalogLabel, train.name, train.apps, installedApps)
  {
    extended := results;
    var ai := 0;
    while ai < |train.apps|
      invariant ai <= |train.apps|
      invariant extended == results + TrainRecords(catalogLabel, train.name, train.apps[..ai], installedApps)
    {
      var appData := train.apps[ai];
      assert train.apps[..ai + 1][..ai] == train.apps[..ai];
      extended := extended + [MakeRecord(catalogLabel, train.name, appData, installedApps)];
      ai := ai + 1;
    }
    assert train.apps[..ai] == train.apps;
  }

  lemma {:induction false} TrainRecordsMembers(catalogLabel: string, train: string, apps: seq<AppData>,
                                               triples: seq<(Value, string, string)>, rec: Record)
    requires forall a :: a in apps ==> "name" in a
    ensures rec in TrainRecords(catalogLabel, train, apps, triples) <==>
      exists a :: a in apps && rec == MakeRecord(catalogLabel, train, a, triples)
    decreases |apps|
  {
    if apps != [] {
      var init := apps[..|apps| - 1];
      TrainRecordsMembers(catalogLabel, train, init, triples, rec);
      assert apps == init + [apps[|apps| - 1]];
    }
  }

  lemma {:induction false} CatalogRecordsMembers(catalogLabel: string, preferred: seq<string>, trains: seq<Train>,
                                                 triples: seq<(Value, string, string)>, rec: Record)
    requires forall t, a :: t in trains && a in t.apps ==> "name" in a
    ensures rec in CatalogRecords(catalogLabel, preferred, trains, triples) <==>
      exists t :: t in trains && t.name in preferred && rec in TrainRecords(catalogLabel, t.name, t.apps, triples)
    decreases |trains|
  {
    if trains != [] {
      var init := trains[..|trains| - 1];
      CatalogRecordsMembers(catalogLabel, preferred, init, triples, rec);
      assert trains == init + [trains[|trains| - 1]];
    }
  }

  lemma {:induction false} AvailableRecordsMembers(catalogs: seq<Catalog>, triples: seq<(Value, string, string)>,
                                                   rec: Record)
    requires AppsHaveNames(catalogs)
    ensures rec in AvailableRecords(catalogs, triples) <==>
      exists c :: c in catalogs && rec in CatalogRecords(c.catalogLabel, c.preferredTrains, c.trains, triples)
    decreases |catalogs|
  {
    if catalogs != [] {
      var init := catalogs[..|catalogs| - 1];
      AvailableRecordsMembers(init, triples, rec);
      assert catalogs == init + [catalogs[|catalogs| - 1]];
    }
  }

  /** A record is available exactly when it is the record of some app of a
      train its catalogue prefers. */
  lemma AvailableIff(catalogs: seq<Catalog>, triples: seq<(Value, string, string)>, rec: Record)
    requires AppsHaveNames(catalogs)
    ensures rec in AvailableRecords(catalogs, triples) <==>
      exists c, t, a :: c in catalogs && t in c.trains && t.name in c.preferredTrains && a in t.apps &&
        rec == MakeRecord(c.catalogLabel, t.name, a, triples)
  {
    AvailableRecordsMembers(catalogs, triples, rec);
    forall c | c in catalogs
      ensures rec in CatalogRecords(c.catalogLabel, c.preferredTrains, c.trains, triples) <==>
        exists t, a :: t in c.trains && t.name in c.preferredTrains && a in t.apps &&
          rec == MakeRecord(c.catalogLabel, t.name, a, triples)
    {
      CatalogRecordsMembers(c.catalogLabel, c.preferredTrains, c.trains, triples, rec);
      forall t | t in c.trains
        ensures rec in TrainRecords(c.catalogLabel, t.name, t.apps, triples) <==>
          exists a :: a in t.apps && rec == MakeRecord(c.catalogLabel, t.name, a, triples)
      {
        TrainRecordsMembers(c.catalogLabel, t.name, t.apps, triples, rec);
      }
    }
  }

  /** An app that does not set `installed` itself is flagged installed
      exactly when a release with its name, catalogue and train exists. */
  lemma InstalledFlag(catalogLabel: string, train: string, app: AppData, releases: seq<Release>)
    requires "name" in app && "installed" !in app && app["name"].Str?
    ensures MakeRecord(catalogLabel, train, app, InstalledTriples(releases))["installed"] == Bool(true) <==>
      Release(app["name"].s, catalogLabel, train) in releases
  {
  }

  // ---------------------------------------------------------- latest

  /** The filter `latest` asks for: a non-null `last_update` and a name
      other than `ix-chart`. */
  predicate LatestCandidate(rec: Record) {
    "last_update" in rec && rec["last_update"] != Null &&
    !("name" in rec && rec["name"] == Str("ix-chart"))
  }

  /** The key `-last_update` orders by. */
  function LastUpdate(rec: Record): string {
    if "last_update" in rec && rec["last_update"].Str? then rec["last_update"].s else ""
  }

  function FilterLatest(records: seq<Record>): (kept: seq<Record>)
    ensures forall rec :: rec in kept <==> rec in records && LatestCandidate(rec)
    ensures multiset(kept) <= multiset(records)
    decreases |records|
  {
    if records == [] then []
    else
      assert records == [records[0]] + records[1..];
      (if LatestCandidate(records[0]) then [records[0]] else []) + FilterLatest(records[1..])
  }

  /** `latest`: the available apps that pass the filter, most recently
      updated first. */
  function Latest(catalogs: seq<Catalog>, releases: seq<Release>): (latest: seq<Record>)
    requires AppsHaveNames(catalogs)
    ensures SortedBy(latest, LastUpdate, true)
    ensures forall rec :: rec in latest <==>
      rec in AvailableRecords(catalogs, InstalledTriples(releases)) && LatestCandidate(rec)
    ensures multiset(latest) == multiset(FilterLatest(AvailableRecords(catalogs, InstalledTriples(releases))))
  {
    var available := AvailableRecords(catalogs, InstalledTriples(releases));
    var latest := SortBy(FilterLatest(available), LastUpdate, true);
    assert forall rec :: rec in latest <==> rec in multiset(latest);
    latest
  }

  // ---------------------------------------------------------- categories

  function Identity(s: string): string { s }

  /** `categories`: the mapped categories in ascending order. */
  function Categories(mapped: seq<string>): (sorted: seq<string>)
    ensures multiset(sorted) == multiset(mapped)
    ensures forall i, j :: 0 <= i < j < |sorted| ==> LexLe(sorted[i], sorted[j])
  {
    var sorted := SortBy(mapped, Identity, false);
    assert forall i, j :: 0 <= i < j < |sorted| ==> InOrder(Identity(sorted[i]), Identity(sorted[j]), false);
    sorted
  }

  // ---------------------------------------------------------- similar

  /** What `similar` reads from a record. */
  predicate SimilarFields(rec: Record) {
    "name" in rec && "catalog" in rec && "train" in rec &&
    "categories" in rec && rec["categories"].List? &&
    "tags" in rec && rec["tags"].List?
  }

  predicate AllSimilarFields(records: seq<Record>) {
    forall i :: 0 <= i < |records| ==> SimilarFields(records[i])
  }

  /** Every catalogue entry has a name and list-valued categories and tags. */
  predicate AppsWellFormed(catalogs: seq<Catalog>) {
    forall c, t, a: AppData :: c in catalogs && t in c.trains && a in t.apps ==>
      "name" in a && "categories" in a && a["categories"].List? && "tags" in a && a["tags"].List?
  }

  /** The first record with the given name, catalogue and train
      (`filter_list` with `get`). */
  function FindApp(records: seq<Record>, appName: string, catalog: string, train: string): (found: Option<Record>)
    ensures found.None? <==> forall rec :: rec in records ==> !Matches(rec, appName, catalog, train)
    ensures found.Some? ==> found.value in records && Matches(found.value, appName, catalog, train)
    ensures found.Some? ==> exists k :: (0 <= k < |records| && records[k] == found.value &&
      forall j :: 0 <= j < k ==> !Matches(records[j], appName, catalog, train))
    decreases |records|
  {
    if records == [] then None
    else if Matches(records[0], appName, catalog, train) then Some(records[0])
    else
      var rest := FindApp(records[1..], appName, catalog, train);
      assert rest.Some? ==> exists k :: (0 <= k < |records| && records[k] == rest.value &&
        forall j :: 0 <= j < k ==> !Matches(records[j], appName, catalog, train)) by {
        if rest.Some? {
          var k :| 0 <= k < |records| - 1 && records[1..][k] == rest.value &&
            forall j :: 0 <= j < k ==> !Matches(records[1..][j], appName, catalog, train);
          assert records[k + 1] == rest.value;
          assert forall j :: 0 <= j < k + 1 ==> !Matches(records[j], appName, catalog, train) by {
            forall j | 0 <= j < k + 1 ensures !Matches(records[j], appName, catalog, train) {
              if j > 0 { assert records[j] == records[1..][j - 1]; }
            }
          }
        }
      }
      rest
  }

  predicate Matches(rec: Record, appName: string, catalog: string, train: string) {
    "name" in rec && rec["name"] == Str(appName) &&
    "catalog" in rec && rec["catalog"] == Str(catalog) &&
    "train" in rec && rec["train"] == Str(train)
  }

  predicate SameApp(a: Record, b: Record)
    requires SimilarFields(a) && SimilarFields(b)
  {
    a["name"] == b["name"] && a["catalog"] == b["catalog"] && a["train"] == b["train"]
  }

  /** The two lists share an element. */
  predicate Shares(a: seq<Value>, b: seq<Value>) {
    exists x :: x in a && x in b
  }

  predicate IsSimilar(target: Record, candidate: Record)
    requires SimilarFields(target) && SimilarFields(candidate)
  {
    !SameApp(candidate, target) &&
    (Shares(target["categories"].items, candidate["categories"].items) ||
     Shares(target["tags"].items, candidate["tags"].items))
  }

  /** The candidates similar to the target, in their order. */
  function SimilarApps(target: Record, candidates: seq<Record>): (similar: seq<Record>)
    requires SimilarFields(target) && AllSimilarFields(candidates)
    ensures AllSimilarFields(similar)
    ensures |similar| <= |candidates|
    ensures forall rec :: rec in similar ==> rec in candidates
    decreases |candidates|
  {
    if candidates == [] then []
    else
      var last := candidates[|candidates| - 1];
      SimilarApps(target, candidates[..|candidates| - 1]) + (if IsSimilar(target, last) then [last] else [])
  }

  /** A similar app is a candidate that is not the target and shares a
      category or a tag with it. */
  lemma {:induction false} SimilarIff(target: Record, candidates: seq<Record>, rec: Record)
    requires SimilarFields(target) && AllSimilarFields(candidates)
    ensures rec in SimilarApps(target, candidates) <==> rec in candidates && IsSimilar(target, rec)
    decreases |candidates|
  {
    if candidates != [] {
      var init := candidates[..|candidates| - 1];
      SimilarIff(target, init, rec);
      assert candidates == init + [candidates[|candidates| - 1]];
    }
  }

  /** `similar` never returns an app with the target's name, catalogue and
      train. */
  lemma SimilarExcludesTarget(target: Record, candidates: seq<Record>)
    requires SimilarFields(target) && AllSimilarFields(candidates)
    ensures forall rec :: rec in SimilarApps(target, candidates) ==> !SameApp(rec, target)
  {
    forall rec | rec in SimilarApps(target, candidates) {
      SimilarIff(target, candidates, rec);
    }
  }

  /** `s` is `t` with some elements left out, in the same order. */
  predicate Subsequence<T(==)>(s: seq<T>, t: seq<T>)
    decreases |t|
  {
    s == [] ||
    (t != [] &&
     ((s[|s| - 1] == t[|t| - 1] && Subsequence(s[..|s| - 1], t[..|t| - 1])) ||
      Subsequence(s, t[..|t| - 1])))
  }

  /** Each candidate is taken at most once and the order is kept. */
  lemma {:induction false} SimilarKeepsOrder(target: Record, candidates: seq<Record>)
    requires SimilarFields(target) && AllSimilarFields(candidates)
    ensures Subsequence(SimilarApps(target, candidates), candidates)
    decreases |candidates|
  {
    if candidates != [] {
      var init, last := candidates[..|candidates| - 1], candidates[|candidates| - 1];
      SimilarKeepsOrder(target, init);
      var s := SimilarApps(target, init);
      assert candidates[..|candidates| - 1] == init;
      if IsSimilar(target, last) {
        assert SimilarApps(target, candidates) == s + [last];
        assert (s + [last])[..|s|] == s;
      } else {
        assert SimilarApps(target, candidates) == s;
      }
    }
  }

  /** Records emitted from well-formed catalogue entries carry what
      `similar` reads. */
  lemma AvailableSimilarFields(catalogs: seq<Catalog>, triples: seq<(Value, string, string)>)
    requires AppsWellFormed(catalogs)
    ensures AppsHaveNames(catalogs)
    ensures AllSimilarFields(AvailableRecords(catalogs, triples))
  {
    var records := AvailableRecords(catalogs, triples);
    forall i | 0 <= i < |records|
      ensures SimilarFields(records[i])
    {
      AvailableIff(catalogs, triples, records[i]);
    }
  }

  /** The available records of well-formed catalogues, as `similar` sees
      them. */
  function AvailableApps(catalogs: seq<Catalog>, releases: seq<Release>): (records: seq<Record>)
    requires AppsWellFormed(catalogs)
    ensures AppsHaveNames(catalogs)
    ensures records == AvailableRecords(catalogs, InstalledTriples(releases))
    ensures AllSimilarFields(records)
  {
    AvailableSimilarFields(catalogs, InstalledTriples(releases));
    AvailableRecords(catalogs, InstalledTriples(releases))
  }

  /** `AppService.similar`: find the target among the available apps, then
      keep every other app that shares a category or a tag with it. */
  method Similar(catalogs: seq<Catalog>, releases: seq<Release>, appName: string, catalog: string, train: string)
    returns (r: Result<seq<Record>, LookupError>)
    requires AppsWellFormed(catalogs)
    ensures match FindApp(AvailableApps(catalogs, releases), appName, catalog, train)
      case None => r == Failure(MatchNotFound)
      case Some(app) => r == Success(SimilarApps(app, AvailableApps(catalogs, releases)))
  {
    var availableApps := Available(catalogs, releases);
    assert availableApps == AvailableApps(catalogs, releases);
    var found := FindApp(availableApps, appName, catalog, train);
    if found.None? {
      return Failure(MatchNotFound);
    }
    var similarApps := CollectSimilar(found.value, availableApps);
    r := Success(similarApps);
  }

  /** The outer loop of `similar`: skip the target itself, keep the apps
      that share a category or a tag with it. */
  method CollectSimilar(app: Record, availableApps: seq<Record>) returns (similarApps: seq<Record>)
    requires SimilarFields(app) && AllSimilarFields(availableApps)
    ensures similarApps == SimilarApps(app, availableApps)
  {
    similarApps := [];
    var i := 0;
    while i < |availableApps|
      invariant i <= |availableApps|
      invariant similarApps == SimilarApps(app, availableApps[..i])
    {
      var toCheckApp := availableApps[i];
      assert availableApps[..i + 1] == availableApps[..i] + [toCheckApp];
      if toCheckApp["name"] == app["name"] && toCheckApp["catalog"] == app["catalog"] &&
         toCheckApp["train"] == app["train"] {
        i := i + 1;
        continue;
      }
      var shared := SharesCategoryOrTag(app, toCheckApp);
      if shared {
        similarApps := similarApps + [toCheckApp];
      }
      i := i + 1;
    }
    assert availableApps[..i] == availableApps;
  }

  /** The inner loop of `similar`: the first of `categories` and `tags`
      whose values the two apps have in common ends the search. */
  method SharesCategoryOrTag(app: Record, toCheckApp: Record) returns (shared: bool)
    requires SimilarFields(app) && SimilarFields(toCheckApp)
    ensures shared <==>
      Shares(app["categories"].items, toCheckApp["categories"].items) ||
      Shares(app["tags"].items, toCheckApp["tags"].items)
  {
    var keys := ["categories", "tags"];
    var k := 0;
    while k < |keys|
      invariant k <= |keys|
      invariant forall m :: 0 <= m < k ==> !Shares(app[keys[m]].items, toCheckApp[keys[m]].items)
    {
      if Shares(app[keys[k]].items, toCheckApp[keys[k]].items) {
        return true;
      }
      k := k + 1;
    }
    assert !Shares(app[keys[0]].items, toCheckApp[keys[0]].items);
    assert !Shares(app[keys[1]].items, toCheckApp[keys[1]].items);
    return false;
  }
}
