/** What a munki manifest includes for the tags of a machine: which sub manifests and
    printers, how often, and in which order the installs come. */
module ManifestContents {
  import opened MonolithManifests

  /** No tags, or one that the machine has. */
  ghost predicate Matches(tagSet: Tags, tags: Tags) {
    tagSet == {} || exists t :: t in tagSet && t in tags
  }

  // ----- sub manifests -----

  lemma {:induction false} InScopeConcat(a: seq<SubManifest>, b: seq<SubManifest>, tags: Tags)
    ensures InScope(a + b, tags) == InScope(a, tags) + InScope(b, tags)
  {
    if b == [] {
      assert a + b == a;
    } else {
      var front := b[..|b| - 1];
      assert (a + b)[..|a + b| - 1] == a + front && (a + b)[|a + b| - 1] == b[|b| - 1];
      InScopeConcat(a, front, tags);
    }
  }

  lemma {:induction false} OneSubManifest(sm: SubManifest, tags: Tags)
    ensures InScope([sm], tags) == if Matches(sm.tagSet, tags) then [sm.name] else []
  {
    assert [sm][..0] == [] && InScope([], tags) == [];
    if Matches(sm.tagSet, tags) && sm.tagSet != {} {
      var t :| t in sm.tagSet && t in tags;
      assert t in sm.tagSet * tags;
    }
  }

  /** The names of the sub manifests that match, each where it stands among them. */
  lemma {:induction false} IncludedAre(before: seq<SubManifest>, sm: SubManifest, after: seq<SubManifest>, tags: Tags)
    ensures InScope(before + [sm] + after, tags) ==
            InScope(before, tags) + (if Matches(sm.tagSet, tags) then [sm.name] else []) + InScope(after, tags)
  {
    InScopeConcat(before + [sm], after, tags);
    InScopeConcat(before, [sm], tags);
    OneSubManifest(sm, tags);
  }

  // ----- printers -----

  lemma {:induction false} PrintersConcat(a: seq<Printer>, b: seq<Printer>, tags: Tags)
    ensures PrinterRows(a + b, tags) == PrinterRows(a, tags) + PrinterRows(b, tags)
  {
    if b == [] {
      assert a + b == a;
    } else {
      var front := b[..|b| - 1];
      assert (a + b)[..|a + b| - 1] == a + front && (a + b)[|a + b| - 1] == b[|b| - 1];
      PrintersConcat(a, front, tags);
    }
  }

  /** A printer in use comes once for each tag it shares with the machine, and once if it
      has no tags; one in the trash does not come. */
  lemma {:induction false} OnePrinter(p: Printer, tags: Tags)
    ensures forall row | row in PrinterRows([p], tags) :: row == p
    ensures |PrinterRows([p], tags)| ==
            if p.trashed then 0 else if p.tagSet == {} then 1 else |set t | t in tags && t in p.tagSet|
    ensures PrinterRows([p], tags) != [] <==> !p.trashed && Matches(p.tagSet, tags)
  {
    assert [p][..0] == [] && PrinterRows([], tags) == [];
    assert (set t | t in tags && t in p.tagSet) == p.tagSet * tags;
    if Matches(p.tagSet, tags) && p.tagSet != {} {
      var t :| t in p.tagSet && t in tags;
      assert t in p.tagSet * tags;
    } else if p.tagSet != {} {
      assert p.tagSet * tags == {};
    }
  }

  lemma {:induction false} PrintersAre(before: seq<Printer>, p: Printer, after: seq<Printer>, tags: Tags)
    ensures PrinterRows(before + [p] + after, tags) ==
            PrinterRows(before, tags) + PrinterRows([p], tags) + PrinterRows(after, tags)
  {
    PrintersConcat(before + [p], after, tags);
    PrintersConcat(before, [p], tags);
  }

  // ----- the lists of the manifest -----

  lemma {:induction false} PackagesAppend(m: Manifest, d: Selection, data: Data, packages: seq<EnrollmentPackage>)
    requires BuildersKnown(m, packages)
    ensures var after := AddPackages(m, d, data, packages);
            && data.installs <= after.installs && data.uninstalls <= after.uninstalls
            && after.catalogs == data.catalogs && after.included == data.included
            && (forall x | x in after.installs[|data.installs|..] ::
                  exists ep :: ep in packages && m.builders[ep.builder] == x)
            && (forall x | x in after.uninstalls[|data.uninstalls|..] ::
                  exists ep :: ep in packages && m.builders[ep.builder] == x)
  {
    if packages != [] {
      var front, last := packages[..|packages| - 1], packages[|packages| - 1];
      assert packages == front + [last] && last in packages;
      PackagesAppend(m, d, data, front);
      var before, after := AddPackages(m, d, data, front), AddPackages(m, d, data, packages);
      forall x | x in after.installs[|data.installs|..]
        ensures exists ep :: ep in packages && m.builders[ep.builder] == x
      {
        if x in before.installs[|data.installs|..] {
          var ep :| ep in front && m.builders[ep.builder] == x;
          assert ep in packages;
        }
      }
      forall x | x in after.uninstalls[|data.uninstalls|..]
        ensures exists ep :: ep in packages && m.builders[ep.builder] == x
      {
        if x in before.uninstalls[|data.uninstalls|..] {
          var ep :| ep in front && m.builders[ep.builder] == x;
          assert ep in packages;
        }
      }
    }
  }

  /** The catalog of the manifest and the sub manifests in scope; the default installs come
      first, then those of the packages, and last those of the printers. */
  lemma {:induction false} ManifestIs(m: Manifest, tags: Tags)
    requires BuildersKnown(m, m.enrollmentPackages)
    ensures var data := Serialized(m, tags);
            && data.catalogs == [m.catalog] && data.included == InScope(m.subManifests, tags)
            && exists names: seq<string> ::
                 && data.installs == m.defaultInstalls + names + PrinterNames(PrinterRows(m.printers, tags))
                 && forall x | x in names :: exists ep :: ep in m.enrollmentPackages && m.builders[ep.builder] == x
  {
    var start := Data([m.catalog], InScope(m.subManifests, tags), m.defaultInstalls, []);
    var d := SelectionFor(m, tags);
    PackagesAppend(m, d, start, m.enrollmentPackages);
    var after := AddPackages(m, d, start, m.enrollmentPackages);
    var names := after.installs[|m.defaultInstalls|..];
    assert after.installs == m.defaultInstalls + names;
  }
}
