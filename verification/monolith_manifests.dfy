/** Munki manifests: the enrollment packages selected for the tags of a machine, and the
    manifest and catalog built from them. */
module MonolithManifests {
  import opened Wrappers
  import opened Sequences

  type Tags = set<nat>

  datatype EnrollmentPackage = EnrollmentPackage(id: nat, builder: string, tagSet: Tags)
  datatype Printer = Printer(name: string, tagSet: Tags, trashed: bool)
  datatype SubManifest = SubManifest(name: string, tagSet: Tags)

  /** Enrollment packages are ordered by id; `builders` gives the package name of each
      configured builder. */
  datatype Manifest = Manifest(
    catalog: string, subManifests: seq<SubManifest>, enrollmentPackages: seq<EnrollmentPackage>, printers: seq<Printer>,
    builders: map<string, string>, defaultInstalls: seq<string>)

  ghost predicate OrderedById(packages: seq<EnrollmentPackage>) {
    forall i, j | 0 <= i < j < |packages| :: packages[i].id < packages[j].id
  }

  // ----- queries -----

  /** How many rows a join on the tags returns for an object, with the filter "no tags, or
      one of the tags of the machine". */
  function RowCount(tagSet: Tags, tags: Tags): nat {
    if tagSet == {} then 1 else |tagSet * tags|
  }

  function Copies<T>(x: T, n: nat): (r: seq<T>)
    ensures |r| == n && forall i | 0 <= i < n :: r[i] == x
  {
    if n == 0 then [] else Copies(x, n - 1) + [x]
  }

  /** The rows of the query, one for each matching tag. */
  function PackageRows(m: Manifest, tags: Tags, packages: seq<EnrollmentPackage>): seq<EnrollmentPackage> {
    if packages == [] then []
    else
      var last := packages[|packages| - 1];
      PackageRows(m, tags, packages[..|packages| - 1])
      + if last.builder in m.builders then Copies(last, RowCount(last.tagSet, tags)) else []
  }

  function PrinterRows(printers: seq<Printer>, tags: Tags): seq<Printer> {
    if printers == [] then []
    else
      var last := printers[|printers| - 1];
      PrinterRows(printers[..|printers| - 1], tags)
      + if last.trashed then [] else Copies(last, RowCount(last.tagSet, tags))
  }

  // ----- enrollment_packages -----

  /** The dict of packages by builder, in insertion order. */
  type Selection = seq<EnrollmentPackage>

  ghost predicate OnePerBuilder(d: Selection) {
    forall i, j | 0 <= i < j < |d| :: d[i].builder != d[j].builder
  }

  function Get(d: Selection, builder: string): (r: Option<EnrollmentPackage>)
    ensures r.Some? ==> r.value in d && r.value.builder == builder
    ensures r.None? ==> forall ep | ep in d :: ep.builder != builder
  {
    if d == [] then None
    else if d[|d| - 1].builder == builder then Some(d[|d| - 1])
    else Get(d[..|d| - 1], builder)
  }

  /** `d[ep.builder] = ep` */
  function Set(d: Selection, ep: EnrollmentPackage): Selection {
    if d == [] then [ep]
    else if d[|d| - 1].builder == ep.builder then d[..|d| - 1] + [ep]
    else Set(d[..|d| - 1], ep) + [d[|d| - 1]]
  }

  function Selected(d: Selection, ep: EnrollmentPackage, tags: Tags): Selection {
    if !(ep.tagSet <= tags) then d
    else
      match Get(d, ep.builder)
      case None => Set(d, ep)
      case Some(found) => if |found.tagSet| < |ep.tagSet| then Set(d, ep) else d
  }

  function SelectAll(rows: seq<EnrollmentPackage>, tags: Tags): Selection {
    if rows == [] then [] else Selected(SelectAll(rows[..|rows| - 1], tags), rows[|rows| - 1], tags)
  }

  function SelectionFor(m: Manifest, tags: Tags): Selection {
    SelectAll(PackageRows(m, tags, m.enrollmentPackages), tags)
  }

  method EnrollmentPackages(m: Manifest, tags: Tags) returns (d: Selection)
    ensures d == SelectionFor(m, tags)
  {
    var rows := PackageRows(m, tags, m.enrollmentPackages);
    d := [];
    for i := 0 to |rows|
      invariant d == SelectAll(rows[..i], tags)
    {
      assert rows[..i + 1][..i] == rows[..i];
      var ep := rows[i];
      if ep.tagSet <= tags {
        var found := Get(d, ep.builder);
        if found.Some? {
          if |found.value.tagSet| < |ep.tagSet| {
            d := Set(d, ep);
          }
        } else {
          d := Set(d, ep);
        }
      }
    }
    assert rows[..|rows|] == rows;
  }

  // ----- serialize -----

  datatype Data = Data(catalogs: seq<string>, included: seq<string>, installs: seq<string>, uninstalls: seq<string>)

  /** `if x not in l: l.append(x)` */
  function AppendNew(l: seq<string>, x: string): seq<string> {
    if x in l then l else l + [x]
  }

  function AddPackage(m: Manifest, d: Selection, data: Data, ep: EnrollmentPackage): Data
    requires ep.builder in m.builders
  {
    var name := m.builders[ep.builder];
    if Get(d, ep.builder).Some? then data.(installs := AppendNew(data.installs, name))
    else data.(uninstalls := AppendNew(data.uninstalls, name))
  }

  predicate BuildersKnown(m: Manifest, packages: seq<EnrollmentPackage>) {
    forall ep | ep in packages :: ep.builder in m.builders
  }

  function AddPackages(m: Manifest, d: Selection, data: Data, packages: seq<EnrollmentPackage>): Data
    requires BuildersKnown(m, packages)
  {
    if packages == [] then data
    else
      assert packages[|packages| - 1] in packages;
      AddPackage(m, d, AddPackages(m, d, data, packages[..|packages| - 1]), packages[|packages| - 1])
  }

  function InScope(subManifests: seq<SubManifest>, tags: Tags): seq<string> {
    if subManifests == [] then []
    else
      var last := subManifests[|subManifests| - 1];
      InScope(subManifests[..|subManifests| - 1], tags) +
      if last.tagSet == {} || last.tagSet * tags != {} then [last.name] else []
  }

  function PrinterNames(rows: seq<Printer>): (r: seq<string>)
    ensures |r| == |rows| && forall i | 0 <= i < |rows| :: r[i] == rows[i].name
  {
    if rows == [] then [] else PrinterNames(rows[..|rows| - 1]) + [rows[|rows| - 1].name]
  }

  function Serialized(m: Manifest, tags: Tags): Data
    requires BuildersKnown(m, m.enrollmentPackages)
  {
    var data := AddPackages(m, SelectionFor(m, tags),
        Data([m.catalog], InScope(m.subManifests, tags), m.defaultInstalls, []), m.enrollmentPackages);
    data.(installs := data.installs + PrinterNames(PrinterRows(m.printers, tags)))
  }

  /** It fails if a package has a builder that is not configured. */
  method Serialize(m: Manifest, tags: Tags) returns (r: Option<Data>)
    ensures r == if BuildersKnown(m, m.enrollmentPackages) then Some(Serialized(m, tags)) else None
  {
    var included := IncludedManifests(m.subManifests, tags);
    var data := Data([m.catalog], included, m.defaultInstalls, []);
    ghost var start := data;
    var d := EnrollmentPackages(m, tags);
    var packages := m.enrollmentPackages;
    for i := 0 to |packages|
      invariant BuildersKnown(m, packages[..i])
      invariant data == AddPackages(m, d, start, packages[..i])
    {
      assert packages[..i + 1][..i] == packages[..i];
      if packages[i].builder !in m.builders {
        assert packages[i] in packages;
        return None;
      }
      assert packages[..i + 1] == packages[..i] + [packages[i]];
      data := AddPackage(m, d, data, packages[i]);
    }
    assert packages[..|packages|] == packages;
    var installs := AddPrinters(data.installs, PrinterRows(m.printers, tags));
    r := Some(data.(installs := installs));
  }

  method AddPrinters(names: seq<string>, rows: seq<Printer>) returns (r: seq<string>)
    ensures r == names + PrinterNames(rows)
  {
    r := names;
    for i := 0 to |rows|
      invariant r == names + PrinterNames(rows)[..i]
    {
      r := r + [rows[i].name];
    }
    assert PrinterNames(rows)[..|rows|] == PrinterNames(rows);
  }

  method IncludedManifests(subManifests: seq<SubManifest>, tags: Tags) returns (names: seq<string>)
    ensures names == InScope(subManifests, tags)
  {
    names := [];
    for i := 0 to |subManifests|
      invariant names == InScope(subManifests[..i], tags)
    {
      assert subManifests[..i + 1][..i] == subManifests[..i];
      if subManifests[i].tagSet == {} || subManifests[i].tagSet * tags != {} {
        names := names + [subManifests[i].name];
      }
    }
    assert subManifests[..|subManifests|] == subManifests;
  }

  // ----- serialize_catalog -----

  /** The packages of the catalog: the selected one of each builder in scope, and all of
      the builders that are not, so that they can be removed. */
  function CatalogPackages(d: Selection, packages: seq<EnrollmentPackage>): seq<EnrollmentPackage> {
    d + OutOfScope(d, packages)
  }

  function OutOfScope(d: Selection, packages: seq<EnrollmentPackage>): seq<EnrollmentPackage> {
    if packages == [] then []
    else
      OutOfScope(d, packages[..|packages| - 1])
      + if Get(d, packages[|packages| - 1].builder).None? then [packages[|packages| - 1]] else []
  }

  /** It fails as well if a package has a builder that is not configured. */
  method SerializeCatalogPackages(m: Manifest, tags: Tags) returns (r: Option<seq<EnrollmentPackage>>)
    requires OrderedById(m.enrollmentPackages)
    ensures r == if BuildersKnown(m, m.enrollmentPackages) then
            Some(CatalogPackages(SelectionFor(m, tags), m.enrollmentPackages))
                 else None
  {
    var d := EnrollmentPackages(m, tags);
    SelectedConfigured(m, tags);
    var pkgInfos := [];
    for i := 0 to |d|
      invariant pkgInfos == d[..i]
    {
      pkgInfos := pkgInfos + [d[i]];
    }
    assert d[..|d|] == d;
    var others := OutOfScopePackages(m, d, m.enrollmentPackages);
    r := if others.None? then None else Some(pkgInfos + others.value);
  }

  method OutOfScopePackages(m: Manifest, d: Selection,
      packages: seq<EnrollmentPackage>) returns (r: Option<seq<EnrollmentPackage>>)
    requires forall builder | Get(d, builder).Some? :: builder in m.builders
    ensures r == if BuildersKnown(m, packages) then Some(OutOfScope(d, packages)) else None
  {
    var others := [];
    for i := 0 to |packages|
      invariant others == OutOfScope(d, packages[..i]) && BuildersKnown(m, packages[..i])
    {
      assert packages[..i + 1][..i] == packages[..i] && packages[..i + 1] == packages[..i] + [packages[i]];
      if Get(d, packages[i].builder).None? {
        if packages[i].builder !in m.builders {
          assert packages[i] in packages;
          return None;
        }
        others := others + [packages[i]];
      }
    }
    assert packages[..|packages|] == packages;
    r := Some(others);
  }

  /** Only packages of configured builders are selected. */
  lemma {:induction false} SelectedConfigured(m: Manifest, tags: Tags)
    requires OrderedById(m.enrollmentPackages)
    ensures forall builder | Get(SelectionFor(m, tags), builder).Some? :: builder in m.builders
  {
    forall builder | Get(SelectionFor(m, tags), builder).Some? ensures builder in m.builders {
      LargestTagSetSelected(m, tags, builder);
    }
  }

  // ----- which package is selected -----

  /** In scope: of a configured builder, with no tags that the machine does not have. */
  predicate Candidate(m: Manifest, tags: Tags, ep: EnrollmentPackage) {
    ep in m.enrollmentPackages && ep.builder in m.builders && ep.tagSet <= tags
  }

  /** Rather this package: more tags, or as many and a lower id. */
  predicate Preferred(a: EnrollmentPackage, b: EnrollmentPackage) {
    |a.tagSet| > |b.tagSet| || (|a.tagSet| == |b.tagSet| && a.id <= b.id)
  }

  ghost predicate Best(rows: seq<EnrollmentPackage>, tags: Tags, d: Selection) {
    && OnePerBuilder(d)
    && (forall ep | ep in d :: ep in rows && ep.tagSet <= tags)
    && (forall ep | ep in rows && ep.tagSet <= tags ::
        Get(d, ep.builder).Some? && Preferred(Get(d, ep.builder).value, ep))
  }

  lemma {:induction false} SetHas(d: Selection, ep: EnrollmentPackage)
    requires OnePerBuilder(d)
    ensures OnePerBuilder(Set(d, ep))
    ensures forall x :: x in Set(d, ep) <==> x == ep || (x in d && x.builder != ep.builder)
  {
    if d != [] {
      var front, last := d[..|d| - 1], d[|d| - 1];
      assert d == front + [last];
      if last.builder != ep.builder {
        SetHas(front, ep);
      }
    }
  }

  lemma {:induction false} GetOf(d: Selection, ep: EnrollmentPackage)
    requires OnePerBuilder(d) && ep in d
    ensures Get(d, ep.builder) == Some(ep)
  {
    var front, last := d[..|d| - 1], d[|d| - 1];
    assert d == front + [last];
    if ep != last {
      var i :| 0 <= i < |front| && front[i] == ep;
      assert d[i].builder != d[|d| - 1].builder;
      GetOf(front, ep);
    }
  }

  lemma {:induction false} GetAfterSet(d: Selection, ep: EnrollmentPackage, builder: string)
    requires OnePerBuilder(d)
    ensures Get(Set(d, ep), builder) == if builder == ep.builder then Some(ep) else Get(d, builder)
  {
    SetHas(d, ep);
    if builder == ep.builder {
      GetOf(Set(d, ep), ep);
    } else if Get(d, builder).Some? {
      GetOf(Set(d, ep), Get(d, builder).value);
    }
  }

  /** Rows come by increasing id, with copies of a row next to each other. */
  ghost predicate Ordered(rows: seq<EnrollmentPackage>) {
    forall i, j | 0 <= i < j < |rows| :: rows[i] == rows[j] || rows[i].id < rows[j].id
  }

  lemma {:induction false} SelectAllBest(rows: seq<EnrollmentPackage>, tags: Tags)
    requires Ordered(rows)
    ensures Best(rows, tags, SelectAll(rows, tags))
  {
    if rows != [] {
      var front, last := rows[..|rows| - 1], rows[|rows| - 1];
      SelectAllBest(front, tags);
      SelectedBest(front, last, tags, SelectAll(front, tags));
      assert rows == front + [last];
    }
  }

  lemma {:induction false} SelectedBest(front: seq<EnrollmentPackage>, last: EnrollmentPackage, tags: Tags,
      d: Selection)
    requires Ordered(front + [last]) && Best(front, tags, d)
    ensures Best(front + [last], tags, Selected(d, last, tags))
  {
    var rows, after := front + [last], Selected(d, last, tags);
    assert forall x :: x in rows <==> x in front || x == last;
    forall x | x in front ensures x == last || x.id < last.id {
      var i :| 0 <= i < |front| && front[i] == x;
      assert rows[i] == x && rows[|front|] == last;
    }
    SetHas(d, last);
    forall ep | ep in rows && ep.tagSet <= tags
      ensures Get(after, ep.builder).Some? && Preferred(Get(after, ep.builder).value, ep)
    {
      GetAfterSet(d, last, ep.builder);
    }
  }

  lemma {:induction false} PackageRowsHas(m: Manifest, tags: Tags, packages: seq<EnrollmentPackage>)
    requires OrderedById(packages)
    ensures Ordered(PackageRows(m, tags, packages))
    ensures forall ep :: ep in PackageRows(m, tags, packages) <==>
              ep in packages && ep.builder in m.builders && RowCount(ep.tagSet, tags) > 0
  {
    if packages != [] {
      var front, last := packages[..|packages| - 1], packages[|packages| - 1];
      PackageRowsHas(m, tags, front);
      assert packages == front + [last];
      var copies := if last.builder in m.builders then Copies(last, RowCount(last.tagSet, tags)) else [];
      if last.builder in m.builders && RowCount(last.tagSet, tags) > 0 {
        assert copies[0] == last;
      }
      RowsThenCopies(front, PackageRows(m, tags, front), last, copies);
    }
  }

  lemma {:induction false} RowsThenCopies(front: seq<EnrollmentPackage>, rows: seq<EnrollmentPackage>,
      last: EnrollmentPackage, copies: seq<EnrollmentPackage>)
    requires OrderedById(front + [last]) && Ordered(rows)
    requires forall ep | ep in rows :: ep in front
    requires forall ep | ep in copies :: ep == last
    ensures Ordered(rows + copies)
  {
    var all := rows + copies;
    forall i, j | 0 <= i < j < |all| ensures all[i] == all[j] || all[i].id < all[j].id {
      if i < |rows| <= j {
        assert rows[i] in rows && copies[j - |rows|] in copies;
        var k :| 0 <= k < |front| && front[k] == rows[i];
        assert (front + [last])[k] == rows[i] && (front + [last])[|front|] == last;
      } else if i >= |rows| {
        assert copies[i - |rows|] in copies && copies[j - |rows|] in copies;
      }
    }
  }

  /** A package with only tags of the machine is among the rows. */
  lemma {:induction false} InRows(tagSet: Tags, tags: Tags)
    requires tagSet <= tags
    ensures RowCount(tagSet, tags) > 0
  {
    assert tagSet * tags == tagSet;
  }

  /** For each builder with candidates, the one with the largest tag set is selected, the
      lowest id among those. */
  lemma {:induction false} LargestTagSetSelected(m: Manifest, tags: Tags, builder: string)
    requires OrderedById(m.enrollmentPackages)
    ensures var found := Get(SelectionFor(m, tags), builder);
            && (found.Some? <==> exists ep :: Candidate(m, tags, ep) && ep.builder == builder)
            && (found.Some? ==>
                  && Candidate(m, tags, found.value)
                  && forall ep | Candidate(m, tags, ep) && ep.builder == builder :: Preferred(found.value, ep))
  {
    var rows := PackageRows(m, tags, m.enrollmentPackages);
    PackageRowsHas(m, tags, m.enrollmentPackages);
    SelectAllBest(rows, tags);
    forall ep | Candidate(m, tags, ep) ensures ep in rows {
      InRows(ep.tagSet, tags);
    }
  }

  // ----- where package names end up -----

  /** Some package with this name, of a builder in scope or not. */
  ghost predicate Named(m: Manifest, d: Selection, packages: seq<EnrollmentPackage>, name: string, inScope: bool)
    requires BuildersKnown(m, packages)
  {
    exists ep :: ep in packages && m.builders[ep.builder] == name && Get(d, ep.builder).Some? == inScope
  }

  lemma {:induction false} NamesAdded(m: Manifest, d: Selection, data: Data, packages: seq<EnrollmentPackage>)
    requires BuildersKnown(m, packages)
    ensures var after := AddPackages(m, d, data, packages);
            && (forall name :: name in after.installs <==> name in data.installs || Named(m, d, packages, name, true))
            && (forall name :: name in after.uninstalls <==>
                name in data.uninstalls || Named(m, d, packages, name, false))
            && (NoDuplicates(data.installs) ==> NoDuplicates(after.installs))
            && (NoDuplicates(data.uninstalls) ==> NoDuplicates(after.uninstalls))
  {
    if packages != [] {
      var front, last := packages[..|packages| - 1], packages[|packages| - 1];
      assert packages == front + [last];
      NamesAdded(m, d, data, front);
      forall name, inScope ensures Named(m, d, packages, name, inScope) <==>
          Named(m, d, front, name, inScope) ||
          (m.builders[last.builder] == name && Get(d, last.builder).Some? == inScope)
      {
        NamedSnoc(m, d, front, last, name, inScope);
      }
      var before := AddPackages(m, d, data, front);
      NoDuplicatesSnoc(before.installs, m.builders[last.builder]);
      NoDuplicatesSnoc(before.uninstalls, m.builders[last.builder]);
    }
  }

  lemma {:induction false} NamedSnoc(m: Manifest, d: Selection, front: seq<EnrollmentPackage>,
      last: EnrollmentPackage, name: string, inScope: bool)
    requires BuildersKnown(m, front) && last.builder in m.builders
    ensures BuildersKnown(m, front + [last])
    ensures Named(m, d, front + [last], name, inScope) <==>
            Named(m, d, front, name, inScope) ||
            (m.builders[last.builder] == name && Get(d, last.builder).Some? == inScope)
  {
    var all := front + [last];
    assert forall ep :: ep in all <==> ep in front || ep == last;
    if Named(m, d, front, name, inScope) {
      var ep :| ep in front && m.builders[ep.builder] == name && Get(d, ep.builder).Some? == inScope;
      assert ep in all;
    }
  }

  /** A name that stands for something else too: a default install, a printer, or the
      package of another builder. */
  ghost predicate Clashes(m: Manifest, tags: Tags, ep: EnrollmentPackage)
    requires BuildersKnown(m, m.enrollmentPackages) && ep in m.enrollmentPackages
  {
    var name := m.builders[ep.builder];
    || name in m.defaultInstalls
    || name in PrinterNames(PrinterRows(m.printers, tags))
    || Named(m, SelectionFor(m, tags), m.enrollmentPackages, name, true)
  }

  /** The name of a package whose builder is in scope is installed, and not removed unless
      a builder out of scope has the same name; the name of a package whose builder is not
      in scope is removed, and installed as well exactly when it clashes. */
  lemma {:induction false} InstalledOrRemoved(m: Manifest, tags: Tags, ep: EnrollmentPackage)
    requires BuildersKnown(m, m.enrollmentPackages) && ep in m.enrollmentPackages
    ensures var data, name, d := Serialized(m, tags), m.builders[ep.builder], SelectionFor(m, tags);
            if Get(d, ep.builder).Some? then
              name in data.installs && (name in data.uninstalls <==> Named(m, d, m.enrollmentPackages, name, false))
            else
              name in data.uninstalls && (name in data.installs <==> Clashes(m, tags, ep))
  {
    var d := SelectionFor(m, tags);
    NamesAdded(m, d, Data([m.catalog], InScope(m.subManifests, tags), m.defaultInstalls, []), m.enrollmentPackages);
    assert Named(m, d, m.enrollmentPackages, m.builders[ep.builder], Get(d, ep.builder).Some?);
  }

  ghost predicate DistinctNames(m: Manifest) {
    forall a, b | a in m.builders && b in m.builders && m.builders[a] == m.builders[b] :: a == b
  }

  /** With distinct builder names that are no default installs or printers, every package
      name is in exactly one of the two lists, by whether its builder is in scope. */
  lemma {:induction false} ExactlyOne(m: Manifest, tags: Tags, ep: EnrollmentPackage)
    requires BuildersKnown(m, m.enrollmentPackages) && ep in m.enrollmentPackages && DistinctNames(m)
    requires m.builders[ep.builder] !in m.defaultInstalls
    requires m.builders[ep.builder] !in PrinterNames(PrinterRows(m.printers, tags))
    ensures var data, name := Serialized(m, tags), m.builders[ep.builder];
            && (name in data.installs <==> Get(SelectionFor(m, tags), ep.builder).Some?)
            && (name in data.uninstalls <==> Get(SelectionFor(m, tags), ep.builder).None?)
  {
    InstalledOrRemoved(m, tags, ep);
  }

  // ----- the catalog -----

  lemma {:induction false} OutOfScopeHas(d: Selection, packages: seq<EnrollmentPackage>)
    ensures forall ep :: ep in OutOfScope(d, packages) <==> ep in packages && Get(d, ep.builder).None?
  {
    if packages != [] {
      var front, last := packages[..|packages| - 1], packages[|packages| - 1];
      assert packages == front + [last];
      OutOfScopeHas(d, front);
    }
  }

  /** The catalog has a package for every name that is installed or removed for an
      enrollment package: the selected one only, or all of a builder out of scope. */
  lemma {:induction false} CatalogHasPackages(m: Manifest, tags: Tags, ep: EnrollmentPackage)
    requires OrderedById(m.enrollmentPackages) && ep in m.enrollmentPackages
    ensures var d := SelectionFor(m, tags);
            var catalog := CatalogPackages(d, m.enrollmentPackages);
            && (exists p :: p in catalog && p.builder == ep.builder)
            && (ep in catalog <==> Get(d, ep.builder) == None || Get(d, ep.builder) == Some(ep))
  {
    var d := SelectionFor(m, tags);
    var rows := PackageRows(m, tags, m.enrollmentPackages);
    PackageRowsHas(m, tags, m.enrollmentPackages);
    SelectAllBest(rows, tags);
    OutOfScopeHas(d, m.enrollmentPackages);
    var catalog := CatalogPackages(d, m.enrollmentPackages);
    if Get(d, ep.builder).Some? {
      assert Get(d, ep.builder).value in catalog;
    } else {
      assert ep in catalog;
    }
    if ep in d {
      GetOf(d, ep);
    }
  }
}
