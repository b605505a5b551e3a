/**
 * The package.json patch of the scaffolder: set the name, make sure both
 * dependency sections exist, and upsert the (package, version) pairs of every
 * selected library of every category whose selection passes the "None" guard.
 *
 * The document is local to one run (read, patched, written back), so it is a
 * value here; the in-place writes into `packageJson.dependencies` are a map
 * variable reassigned in the loops of `PatchManifest`.
 */
module Manifest {
  import opened Wrappers
  import opened Catalog

  type Deps = map<string, string>

  /**
   * The manifest: the three fields the patch touches (each possibly absent)
   * and every other top-level field, kept as its JSON text.
   */
  datatype PackageJson = PackageJson(
    name: Option<string>,
    dependencies: Option<Deps>,
    devDependencies: Option<Deps>,
    otherFields: map<string, string>)

  /** `libs.length && !libs.includes("None")`: the guard in front of each category's loop. */
  predicate Selected(libs: seq<string>) {
    |libs| > 0 && NoneValue !in libs
  }

  /** The packages the tables of a category give for the values in libs. */
  function SelectedPackages(c: Category, libs: seq<string>): set<string> {
    set lib, p | lib in libs && p in TableKeys(c, lib) :: p
  }

  /** Each package in keys at the one version `Versions` gives it. */
  function Versioned(keys: set<string>): Deps {
    map p | p in keys && p in Versions :: Versions[p]
  }

  /** The packages a category contributes: none when its guard fails. */
  function Contributes(c: Category, libs: seq<string>): set<string> {
    if Selected(libs) then SelectedPackages(c, libs) else {}
  }

  /** `packageJson.dependencies || {}`. */
  function BaseDeps(m: PackageJson): Deps {
    m.dependencies.GetOr(map[])
  }

  /** The packages the three categories contribute together. */
  function AllContributed(ui: seq<string>, sm: seq<string>, cl: seq<string>): set<string> {
    Contributes(Ui, ui) + Contributes(StateManagement, sm) + Contributes(Common, cl)
  }

  /**
   * The patched manifest, stated independently of the order of the writes:
   * the old dependencies, overridden by every contributed package at its version.
   */
  function Patch(m: PackageJson, projectName: string,
                 ui: seq<string>, sm: seq<string>, cl: seq<string>): PackageJson
  {
    PackageJson(
      Some(projectName),
      Some(BaseDeps(m) + Versioned(AllContributed(ui, sm, cl))),
      Some(m.devDependencies.GetOr(map[])),
      m.otherFields)
  }

  /** The packages of the first k rows of a table. */
  function RowKeys(rows: seq<(string, string)>, k: nat): set<string>
    requires k <= |rows|
  {
    set m | 0 <= m < k :: rows[m].0
  }

  lemma RowKeysStep(rows: seq<(string, string)>, k: nat)
    requires k < |rows|
    ensures RowKeys(rows, k + 1) == RowKeys(rows, k) + {rows[k].0}
  {
    assert rows[k].0 in RowKeys(rows, k + 1);
  }

  lemma SelectedPackagesStep(c: Category, libs: seq<string>, i: nat)
    requires i < |libs|
    ensures SelectedPackages(c, libs[..i + 1]) == SelectedPackages(c, libs[..i]) + TableKeys(c, libs[i])
  {
    assert libs[..i + 1] == libs[..i] + [libs[i]];
    forall p | p in SelectedPackages(c, libs[..i + 1])
      ensures p in SelectedPackages(c, libs[..i]) + TableKeys(c, libs[i])
    {
      var lib :| lib in libs[..i + 1] && p in TableKeys(c, lib);
      if lib != libs[i] {
        assert lib in libs[..i];
      }
    }
    forall p | p in TableKeys(c, libs[i]) ensures p in SelectedPackages(c, libs[..i + 1]) {
      assert libs[i] in libs[..i + 1];
    }
  }

  lemma TableKeysFull(c: Category, lib: string)
    ensures TableKeys(c, lib) == RowKeys(Table(c, lib), |Table(c, lib)|)
  {
  }

  /** Writing a package at its own version extends the versioned map by that key. */
  lemma VersionedAdd(d: Deps, keys: set<string>, p: string)
    requires p in Versions
    ensures (d + Versioned(keys))[p := Versions[p]] == d + Versioned(keys + {p})
  {
  }

  /** Applying two versioned maps in turn is applying the one of the union of their keys. */
  lemma VersionedUnion(d: Deps, a: set<string>, b: set<string>)
    ensures d + Versioned(a) + Versioned(b) == d + Versioned(a + b)
  {
  }

  /**
   * The body of one `case` of a category's `switch`: write each (package,
   * version) pair of the selection's table row in turn.
   */
  method WriteRow(deps0: Deps, c: Category, lib: string) returns (deps: Deps)
    ensures deps == deps0 + Versioned(TableKeys(c, lib))
  {
    var rows := Table(c, lib);
    deps := deps0;
    var k := 0;
    while k < |rows|
      invariant 0 <= k <= |rows|
      invariant deps == deps0 + Versioned(RowKeys(rows, k))
    {
      TableAgreesWithVersions(c, lib, k);
      VersionedAdd(deps0, RowKeys(rows, k), rows[k].0);
      RowKeysStep(rows, k);
      deps := deps[rows[k].0 := rows[k].1];
      k := k + 1;
    }
    TableKeysFull(c, lib);
  }

  /**
   * One category's `if (guard) libs.forEach(lib => switch (lib) ...)`:
   * the result is the old dependencies overridden by the category's packages.
   */
  method AddCategory(deps0: Deps, c: Category, libs: seq<string>) returns (deps: Deps)
    ensures deps == deps0 + Versioned(Contributes(c, libs))
  {
    deps := deps0;
    if |libs| > 0 && NoneValue !in libs {
      var i := 0;
      while i < |libs|
        invariant 0 <= i <= |libs|
        invariant deps == deps0 + Versioned(SelectedPackages(c, libs[..i]))
      {
        deps := WriteRow(deps, c, libs[i]);
        VersionedUnion(deps0, SelectedPackages(c, libs[..i]), TableKeys(c, libs[i]));
        SelectedPackagesStep(c, libs, i);
        i := i + 1;
      }
      assert libs[..i] == libs;
    } else {
      assert Versioned({}) == map[];
      assert deps0 + map[] == deps0;
    }
  }

  /**
   * The patch block of `runCLI`: set `name`, default both dependency
   * sections to `{}`, then run the three guarded category loops in turn.
   */
  method PatchManifest(m: PackageJson, projectName: string,
                       ui: seq<string>, sm: seq<string>, cl: seq<string>) returns (r: PackageJson)
    ensures r == Patch(m, projectName, ui, sm, cl)
    ensures r.name == Some(projectName)
    ensures r.devDependencies == Some(m.devDependencies.GetOr(map[]))
    ensures r.otherFields == m.otherFields
  {
    var deps := m.dependencies.GetOr(map[]);
    var devDeps := m.devDependencies.GetOr(map[]);
    deps := AddCategory(deps, Ui, ui);
    deps := AddCategory(deps, StateManagement, sm);
    VersionedUnion(BaseDeps(m), Contributes(Ui, ui), Contributes(StateManagement, sm));
    deps := AddCategory(deps, Common, cl);
    VersionedUnion(BaseDeps(m), Contributes(Ui, ui) + Contributes(StateManagement, sm), Contributes(Common, cl));
    r := PackageJson(Some(projectName), Some(deps), Some(devDeps), m.otherFields);
  }

  /** Every contributed package has a version in `Versions`. */
  lemma ContributedHaveVersions(c: Category, libs: seq<string>, p: string)
    requires p in Contributes(c, libs)
    ensures p in Versions
  {
    var lib :| lib in libs && p in TableKeys(c, lib);
    var k :| 0 <= k < |Table(c, lib)| && Table(c, lib)[k].0 == p;
    TableAgreesWithVersions(c, lib, k);
  }

  /**
   * The patch never removes a dependency; a key whose entry is new or changed
   * is a package of a selected value of a category that passed its guard, and
   * it holds that package's version.
   */
  lemma PatchKeepsDependencies(m: PackageJson, projectName: string,
                               ui: seq<string>, sm: seq<string>, cl: seq<string>)
    ensures Patch(m, projectName, ui, sm, cl).dependencies.Some?
    ensures BaseDeps(m).Keys <= Patch(m, projectName, ui, sm, cl).dependencies.value.Keys
    ensures forall p :: p in Patch(m, projectName, ui, sm, cl).dependencies.value ==>
              (p !in AllContributed(ui, sm, cl) && p in BaseDeps(m)
                 && Patch(m, projectName, ui, sm, cl).dependencies.value[p] == BaseDeps(m)[p])
              || (p in AllContributed(ui, sm, cl) && p in Versions
                 && Patch(m, projectName, ui, sm, cl).dependencies.value[p] == Versions[p])
    ensures AllContributed(ui, sm, cl) <= Patch(m, projectName, ui, sm, cl).dependencies.value.Keys
  {
    forall p | p in AllContributed(ui, sm, cl) ensures p in Versions {
      if p in Contributes(Ui, ui) {
        ContributedHaveVersions(Ui, ui, p);
      } else if p in Contributes(StateManagement, sm) {
        ContributedHaveVersions(StateManagement, sm, p);
      } else {
        ContributedHaveVersions(Common, cl, p);
      }
    }
  }

  /**
   * A category whose list is empty or contains "None" contributes no entry,
   * whatever else it lists, and independently of the other two categories.
   */
  lemma GuardedCategoryAddsNothing(m: PackageJson, projectName: string,
                                   ui: seq<string>, sm: seq<string>, cl: seq<string>)
    ensures (|ui| == 0 || NoneValue in ui) ==>
              Patch(m, projectName, ui, sm, cl) == Patch(m, projectName, [], sm, cl)
    ensures (|sm| == 0 || NoneValue in sm) ==>
              Patch(m, projectName, ui, sm, cl) == Patch(m, projectName, ui, [], cl)
    ensures (|cl| == 0 || NoneValue in cl) ==>
              Patch(m, projectName, ui, sm, cl) == Patch(m, projectName, ui, sm, [])
    ensures (|ui| == 0 || NoneValue in ui) && (|sm| == 0 || NoneValue in sm)
              && (|cl| == 0 || NoneValue in cl) ==>
              Patch(m, projectName, ui, sm, cl).dependencies == Some(BaseDeps(m))
  {
    if (|ui| == 0 || NoneValue in ui) && (|sm| == 0 || NoneValue in sm) && (|cl| == 0 || NoneValue in cl) {
      assert AllContributed(ui, sm, cl) == {};
      assert Versioned({}) == map[];
      assert BaseDeps(m) + map[] == BaseDeps(m);
    }
  }

  /** The MUI row of the UI table, alone, gives exactly these three packages. */
  lemma MuiAddsExactly(m: PackageJson, projectName: string)
    ensures Patch(m, projectName, ["MUI"], [], []).dependencies == Some(BaseDeps(m) + map[
              "@mui/material" := "^5.14.11",
              "@emotion/react" := "^11.11.1",
              "@emotion/styled" := "^11.11.0"])
  {
    var rows := Table(Ui, "MUI");
    assert TableKeys(Ui, "MUI") == {"@mui/material", "@emotion/react", "@emotion/styled"} by {
      assert rows[0].0 == "@mui/material" && rows[1].0 == "@emotion/react" && rows[2].0 == "@emotion/styled";
    }
    assert SelectedPackages(Ui, ["MUI"]) == TableKeys(Ui, "MUI") by {
      assert "MUI" in ["MUI"];
    }
    assert AllContributed(["MUI"], [], []) == TableKeys(Ui, "MUI");
    MuiVersions();
  }

  lemma MuiVersions()
    ensures Versioned({"@mui/material", "@emotion/react", "@emotion/styled"}) == map[
              "@mui/material" := "^5.14.11", "@emotion/react" := "^11.11.1", "@emotion/styled" := "^11.11.0"]
  {
    var keys := {"@mui/material", "@emotion/react", "@emotion/styled"};
    assert keys <= Versions.Keys;
    assert Versioned(keys).Keys == keys;
    assert Versioned(keys)["@mui/material"] == Versions["@mui/material"] == "^5.14.11";
    assert Versioned(keys)["@emotion/react"] == Versions["@emotion/react"] == "^11.11.1";
    assert Versioned(keys)["@emotion/styled"] == Versions["@emotion/styled"] == "^11.11.0";
  }

  /** The Redux row of the state-management table, alone, gives exactly these two packages. */
  lemma ReduxAddsExactly(m: PackageJson, projectName: string)
    ensures Patch(m, projectName, [], ["Redux"], []).dependencies == Some(BaseDeps(m) + map[
              "redux" := "^4.2.1",
              "react-redux" := "^8.1.1"])
  {
    var rows := Table(StateManagement, "Redux");
    assert TableKeys(StateManagement, "Redux") == {"redux", "react-redux"} by {
      assert rows[0].0 == "redux" && rows[1].0 == "react-redux";
    }
    assert SelectedPackages(StateManagement, ["Redux"]) == TableKeys(StateManagement, "Redux") by {
      assert "Redux" in ["Redux"];
    }
    assert AllContributed([], ["Redux"], []) == TableKeys(StateManagement, "Redux");
    ReduxVersions();
  }

  lemma ReduxVersions()
    ensures Versioned({"redux", "react-redux"}) == map["redux" := "^4.2.1", "react-redux" := "^8.1.1"]
  {
    var keys := {"redux", "react-redux"};
    assert keys <= Versions.Keys;
    assert Versioned(keys).Keys == keys;
    assert Versioned(keys)["redux"] == Versions["redux"] == "^4.2.1";
    assert Versioned(keys)["react-redux"] == Versions["react-redux"] == "^8.1.1";
  }

  /**
   * A catalog value with no `case` contributes nothing wherever it stands in
   * a selection list (it is not "None", so it cannot fail the guard either).
   */
  lemma UnmappedSelectionAddsNothing(c: Category, lib: string, before: seq<string>, after: seq<string>)
    requires Unmapped(c, lib)
    ensures Contributes(c, before + [lib] + after) == Contributes(c, before + after)
  {
    var with, without := before + [lib] + after, before + after;
    assert TableKeys(c, lib) == {};
    assert SelectedPackages(c, with) == SelectedPackages(c, without) by {
      forall p | p in SelectedPackages(c, with) ensures p in SelectedPackages(c, without) {
        var l :| l in with && p in TableKeys(c, l);
        assert l in without;
      }
      forall p | p in SelectedPackages(c, without) ensures p in SelectedPackages(c, with) {
        var l :| l in without && p in TableKeys(c, l);
        assert l in with;
      }
    }
    if without == [] {
      assert forall p :: p !in SelectedPackages(c, without);
    } else if NoneValue in without {
      assert NoneValue in with;
    } else {
      assert NoneValue !in with;
    }
  }

  /** Lists with the same values contribute the same packages. */
  lemma SameValuesSameContribution(c: Category, libs: seq<string>, libs': seq<string>)
    requires forall x :: x in libs <==> x in libs'
    ensures Contributes(c, libs) == Contributes(c, libs')
  {
    assert SelectedPackages(c, libs) == SelectedPackages(c, libs');
    if |libs| > 0 {
      assert libs[0] in libs';
    }
    if |libs'| > 0 {
      assert libs'[0] in libs;
    }
  }

  /** The result depends only on which values are selected, not on their order or repetition. */
  lemma PatchOrderIndependent(m: PackageJson, projectName: string,
                              ui: seq<string>, sm: seq<string>, cl: seq<string>,
                              ui': seq<string>, sm': seq<string>, cl': seq<string>)
    requires forall x :: x in ui <==> x in ui'
    requires forall x :: x in sm <==> x in sm'
    requires forall x :: x in cl <==> x in cl'
    ensures Patch(m, projectName, ui, sm, cl) == Patch(m, projectName, ui', sm', cl')
  {
    SameValuesSameContribution(Ui, ui, ui');
    SameValuesSameContribution(StateManagement, sm, sm');
    SameValuesSameContribution(Common, cl, cl');
  }

  /** Patching an already patched manifest with the same answers changes nothing. */
  lemma PatchIdempotent(m: PackageJson, projectName: string,
                        ui: seq<string>, sm: seq<string>, cl: seq<string>)
    ensures Patch(Patch(m, projectName, ui, sm, cl), projectName, ui, sm, cl)
            == Patch(m, projectName, ui, sm, cl)
  {
    var a := AllContributed(ui, sm, cl);
    VersionedUnion(BaseDeps(m), a, a);
    assert a + a == a;
  }
}
