/** From configuration and modules to what is considered: `process_excludes`, the collection of
  module artifacts and `setModuleExcludes` of dnf-sack.cpp, one after the other on a sack.

  Subject matching and NEVRA parsing belong to other files; their results are given as arguments.
  The other filters of a query select packages by their attributes.
 */
module PackageFilter {
  import opened Options
  import opened Bitmaps
  import opened DnfSacks

  /** The solvable at the same index of the pool; `isPackage` is false for the ids that queries do
      not see. */
  datatype Package = Package(isPackage: bool, nevra: string, name: string, provided: set<string>, repo: string)

  /** Whether a configured pattern matches, and the packages it finds. */
  datatype Match = Match(matched: bool, found: Bitmap)

  /** An enabled repository: its id, its place in the sack, its includepkgs and excludepkgs. */
  datatype RepoConfig = RepoConfig(id: string, index: nat, includes: seq<Match>, excludes: seq<Match>)

  datatype Config = Config(disabled: set<string>, repos: seq<RepoConfig>, includes: seq<Match>, excludes: seq<Match>)

  datatype Module = Module(active: bool, artifacts: seq<string>)

  const SYSTEM_REPO := "@System"
  const CMDLINE_REPO := "@commandline"

  // ---------------------------------------------------- configured excludes

  predicate AnyMatched(matches: seq<Match>) {
    exists i :: 0 <= i < |matches| && matches[i].matched
  }

  predicate FoundBy(matches: seq<Match>, id: int) {
    exists i :: 0 <= i < |matches| && matches[i].matched && Has(matches[i].found, id)
  }

  /** Excludes and includes can be disabled for a repository, for the main configuration, or all. The
      patterns of the repository at this place in the configuration count. */
  predicate Counts(config: Config, c: int) {
    0 <= c < |config.repos| && "all" !in config.disabled && config.repos[c].id !in config.disabled
  }

  predicate MainCounts(config: Config) {
    "all" !in config.disabled && "main" !in config.disabled
  }

  /** Found by a pattern that counts of one of the first c repositories. */
  predicate RepoIncludes(config: Config, c: int, id: int) {
    exists k :: 0 <= k < c && Counts(config, k) && FoundBy(config.repos[k].includes, id)
  }

  predicate RepoExcludes(config: Config, c: int, id: int) {
    exists k :: 0 <= k < c && Counts(config, k) && FoundBy(config.repos[k].excludes, id)
  }

  predicate RepoMatches(config: Config, c: int) {
    exists k :: 0 <= k < c && Counts(config, k) && AnyMatched(config.repos[k].includes)
  }

  predicate RepoMatchesAt(config: Config, c: int, r: int) {
    exists k :: 0 <= k < c && Counts(config, k) && config.repos[k].index == r && AnyMatched(config.repos[k].includes)
  }

  /** Found by an include pattern that counts, of a repository or of the main configuration. */
  predicate Included(config: Config, id: int) {
    RepoIncludes(config, |config.repos|, id) || (MainCounts(config) && FoundBy(config.includes, id))
  }

  predicate Excluded(config: Config, id: int) {
    RepoExcludes(config, |config.repos|, id) || (MainCounts(config) && FoundBy(config.excludes, id))
  }

  predicate IncludesExist(config: Config) {
    RepoMatches(config, |config.repos|) || (MainCounts(config) && AnyMatched(config.includes))
  }

  /** The configuration makes the repository at this place in the sack use includes. */
  predicate MadeToUseIncludes(config: Config, r: int) {
    RepoMatchesAt(config, |config.repos|, r) || (MainCounts(config) && AnyMatched(config.includes))
  }

  predicate IndicesExist(config: Config, n: nat) {
    forall c :: 0 <= c < |config.repos| ==> config.repos[c].index < n
  }

  /** Adds what the patterns find, and says whether any of them matches. */
  method CollectMatches(found: Bitmap, matches: seq<Match>) returns (r: Bitmap, any: bool)
    ensures any <==> AnyMatched(matches)
    ensures forall id :: Has(r, id) <==> Has(found, id) || FoundBy(matches, id)
  {
    r, any := found, false;
    var i := 0;
    while i < |matches|
      invariant i <= |matches|
      invariant any <==> exists k :: 0 <= k < i && matches[k].matched
      invariant forall id :: Has(r, id) <==>
        Has(found, id) || exists k :: 0 <= k < i && matches[k].matched && Has(matches[k].found, id)
    {
      if matches[i].matched {
        r := Union(r, matches[i].found);
        any := true;
      }
      i := i + 1;
    }
  }

  /** Marks a repository; the cache is not told. */
  method UseIncludes(sack: DnfSack, r: nat)
    requires PoolHolds(sack.repos, sack.nsolvables) && r < |sack.repos|
    modifies sack`repos
    ensures PoolHolds(sack.repos, sack.nsolvables)
    ensures sack.repos == old(sack.repos)[r := old(sack.repos)[r].(useIncludes := true)]
  {
    sack.repos := sack.repos[r := sack.repos[r].(useIncludes := true)];
  }

  /** The part of the configuration that belongs to the repositories. */
  method ProcessRepos(sack: DnfSack, config: Config)
      returns (includes: Bitmap, excludes: Bitmap, includesExist: bool)
    requires PoolHolds(sack.repos, sack.nsolvables) && IndicesExist(config, |sack.repos|)
    requires "all" !in config.disabled
    modifies sack`repos
    ensures PoolHolds(sack.repos, sack.nsolvables) && |sack.repos| == |old(sack.repos)|
    ensures includesExist <==> RepoMatches(config, |config.repos|)
    ensures forall id :: Has(includes, id) <==> RepoIncludes(config, |config.repos|, id)
    ensures forall id :: Has(excludes, id) <==> RepoExcludes(config, |config.repos|, id)
    ensures forall r :: 0 <= r < |sack.repos| ==>
      sack.repos[r] == if RepoMatchesAt(config, |config.repos|, r) then old(sack.repos)[r].(useIncludes := true)
                       else old(sack.repos)[r]
  {
    includes, excludes, includesExist := Empty(sack.nsolvables), Empty(sack.nsolvables), false;
    ghost var before := sack.repos;
    var c := 0;
    while c < |config.repos|
      invariant c <= |config.repos| && PoolHolds(sack.repos, sack.nsolvables) && |sack.repos| == |before|
      invariant includesExist <==> RepoMatches(config, c)
      invariant forall id :: Has(includes, id) <==> RepoIncludes(config, c, id)
      invariant forall id :: Has(excludes, id) <==> RepoExcludes(config, c, id)
      invariant forall r :: 0 <= r < |before| ==>
        sack.repos[r] == if RepoMatchesAt(config, c, r) then before[r].(useIncludes := true) else before[r]
    {
      OneMoreRepo(config, c);
      if config.repos[c].id !in config.disabled {
        var any, ignored;
        includes, any := CollectMatches(includes, config.repos[c].includes);
        if any {
          includesExist := true;
          UseIncludes(sack, config.repos[c].index);
        }
        excludes, ignored := CollectMatches(excludes, config.repos[c].excludes);
      }
      c := c + 1;
    }
  }

  lemma OneMoreRepo(config: Config, c: nat)
    requires c < |config.repos|
    ensures RepoMatches(config, c + 1) <==>
      RepoMatches(config, c) || (Counts(config, c) && AnyMatched(config.repos[c].includes))
    ensures forall id :: RepoIncludes(config, c + 1, id) <==>
      RepoIncludes(config, c, id) || (Counts(config, c) && FoundBy(config.repos[c].includes, id))
    ensures forall id :: RepoExcludes(config, c + 1, id) <==>
      RepoExcludes(config, c, id) || (Counts(config, c) && FoundBy(config.repos[c].excludes, id))
    ensures forall r :: RepoMatchesAt(config, c + 1, r) <==>
      RepoMatchesAt(config, c, r) ||
      (Counts(config, c) && config.repos[c].index == r && AnyMatched(config.repos[c].includes))
  {
  }

  /** Adds the configured includes and excludes to those of the sack. When all are disabled, none
      counts. */
  method ProcessExcludes(sack: DnfSack, config: Config)
    requires sack.Valid() && IndicesExist(config, |sack.repos|)
    modifies sack`maps, sack`repos, sack`consideredUptodate
    ensures sack.Valid() && |sack.repos| == |old(sack.repos)|
    ensures "all" in config.disabled ==> sack.maps == old(sack.maps) && sack.repos == old(sack.repos)
    ensures
      && sack.maps == old(sack.maps).(pkgExcludes := sack.maps.pkgExcludes, pkgIncludes := sack.maps.pkgIncludes)
      && (forall id :: In(sack.maps.pkgExcludes, id) <==> In(old(sack.maps).pkgExcludes, id) || Excluded(config, id))
      && (sack.maps.pkgIncludes.Some? <==> old(sack.maps).pkgIncludes.Some? || IncludesExist(config))
      && (forall id :: In(sack.maps.pkgIncludes, id) <==> In(old(sack.maps).pkgIncludes, id) || Included(config, id))
      && (forall r :: 0 <= r < |sack.repos| ==>
            sack.repos[r] == if MadeToUseIncludes(config, r) then old(sack.repos)[r].(useIncludes := true)
                             else old(sack.repos)[r])
  {
    if "all" in config.disabled {
      NothingCounts(config);
      return;
    }
    var includes, excludes, includesExist := ProcessRepos(sack, config);
    if "main" !in config.disabled {
      var useGlobalIncludes, ignored;
      includes, useGlobalIncludes := CollectMatches(includes, config.includes);
      includesExist := includesExist || useGlobalIncludes;
      excludes, ignored := CollectMatches(excludes, config.excludes);
      if useGlobalIncludes {
        var _ := sack.SetUseIncludes(None, true);
      }
    }
    if includesExist {
      sack.AddExcludesOrIncludes(PkgIncludes, includes);
    } else {
      assert forall id :: !Included(config, id) by { NothingIncluded(config); }
    }
    sack.AddExcludesOrIncludes(PkgExcludes, excludes);
  }

  lemma NothingCounts(config: Config)
    requires "all" in config.disabled
    ensures !IncludesExist(config)
    ensures forall id :: !Included(config, id) && !Excluded(config, id)
    ensures forall r :: !MadeToUseIncludes(config, r)
  {
  }

  lemma NothingIncluded(config: Config)
    requires !IncludesExist(config)
    ensures forall id :: !Included(config, id)
  {
  }

  // -------------------------------------------------------- module excludes

  predicate ArtifactOf(modules: seq<Module>, active: bool, nevra: string) {
    exists m :: 0 <= m < |modules| && modules[m].active == active && nevra in modules[m].artifacts
  }

  method CollectNevras(modules: seq<Module>) returns (includes: seq<string>, excludes: seq<string>)
    ensures forall nevra :: nevra in includes <==> ArtifactOf(modules, true, nevra)
    ensures forall nevra :: nevra in excludes <==> ArtifactOf(modules, false, nevra)
  {
    includes, excludes := [], [];
    var m := 0;
    while m < |modules|
      invariant m <= |modules|
      invariant forall nevra :: nevra in includes <==>
        exists k :: 0 <= k < m && modules[k].active && nevra in modules[k].artifacts
      invariant forall nevra :: nevra in excludes <==>
        exists k :: 0 <= k < m && !modules[k].active && nevra in modules[k].artifacts
    {
      if modules[m].active {
        includes := includes + modules[m].artifacts;
      } else {
        excludes := excludes + modules[m].artifacts;
      }
      m := m + 1;
    }
  }

  /** The names of the NEVRAs that can be parsed. */
  method CollectNames(nevras: seq<string>, nameOf: map<string, string>) returns (names: set<string>)
    ensures forall name :: name in names <==> NamedBy(nevras, nameOf, name)
  {
    names := {};
    var i := 0;
    while i < |nevras|
      invariant i <= |nevras|
      invariant forall name :: name in names <==> NamedBy(nevras[..i], nameOf, name)
    {
      assert nevras[..i + 1] == nevras[..i] + [nevras[i]];
      if nevras[i] in nameOf {
        names := names + {nameOf[nevras[i]]};
      }
      forall name ensures NamedBy(nevras[..i + 1], nameOf, name) <==>
        NamedBy(nevras[..i], nameOf, name) || (nevras[i] in nameOf && nameOf[nevras[i]] == name)
      {
        NamedByOneMore(nevras, nameOf, i, name);
      }
      i := i + 1;
    }
    assert nevras[..i] == nevras;
  }

  predicate NamedBy(nevras: seq<string>, nameOf: map<string, string>, name: string) {
    exists i :: 0 <= i < |nevras| && nevras[i] in nameOf && nameOf[nevras[i]] == name
  }

  lemma NamedByOneMore(nevras: seq<string>, nameOf: map<string, string>, i: nat, name: string)
    requires i < |nevras|
    ensures NamedBy(nevras[..i + 1], nameOf, name) <==>
      NamedBy(nevras[..i], nameOf, name) || (nevras[i] in nameOf && nameOf[nevras[i]] == name)
  {
    var more, less := nevras[..i + 1], nevras[..i];
    assert more[i] == nevras[i];
    assert forall k :: 0 <= k < i ==> more[k] == less[k];
  }

  /** The packages a new query starts from: those that are considered. */
  method Query(sack: DnfSack, pool: seq<Package>) returns (r: Bitmap)
    requires sack.Valid() && |pool| == sack.nsolvables
    modifies sack`maps, sack`considered, sack`consideredUptodate
    ensures sack.Valid() && SameIncludes(sack.maps, old(sack.maps))
    ensures forall id :: Has(r, id) <==>
      0 <= id < |pool| && pool[id].isPackage && Wanted(sack.maps, sack.repos, APPLY_EXCLUDES, id)
  {
    sack.RecomputeConsidered();
    r := seq(|pool|, i requires 0 <= i < |pool| => pool[i].isPackage);
    if sack.considered.Some? {
      r := And(r, sack.considered.value);
    }
  }

  function Keep(m: Bitmap, pool: seq<Package>, keeps: Package -> bool): (r: Bitmap)
    ensures forall id :: Has(r, id) <==> Has(m, id) && id < |pool| && keeps(pool[id])
  {
    seq(|m|, i => Has(m, i) && 0 <= i < |pool| && keeps(pool[i]))
  }

  /** The module excludes take a considered package out exactly when it is not an artifact of an
      active module, not from the system, command line or a hotfix repository, and is an artifact
      of an inactive module or has or provides the name of an active one's artifact. */
  predicate ModuleExcluded(p: Package, hotfixRepos: set<string>, includes: seq<string>, excludes: seq<string>,
                           nameOf: map<string, string>)
  {
    && p.repo != SYSTEM_REPO && p.repo != CMDLINE_REPO && p.repo !in hotfixRepos
    && p.nevra !in includes
    && (p.nevra in excludes || NamedBy(includes, nameOf, p.name)
        || exists name :: name in p.provided && NamedBy(includes, nameOf, name))
  }

  method SetModuleExcludes(sack: DnfSack, pool: seq<Package>, hotfixRepos: set<string>,
                           includes: seq<string>, excludes: seq<string>, nameOf: map<string, string>)
    requires sack.Valid() && |pool| == sack.nsolvables
    modifies sack`maps, sack`considered, sack`consideredUptodate, sack`moduleIncludes
    ensures sack.Valid()
    ensures SameIncludes(sack.maps.(moduleExcludes := None), old(sack.maps).(moduleExcludes := None))
    ensures forall id :: In(sack.maps.moduleExcludes, id) <==>
      && 0 <= id < |pool| && pool[id].isPackage
      && Wanted(old(sack.maps).(moduleExcludes := None), sack.repos, APPLY_EXCLUDES, id)
      && ModuleExcluded(pool[id], hotfixRepos, includes, excludes, nameOf)
  {
    hide NamedBy, DnfSack.Valid, FreeOfIncludes;
    sack.SetExcludesOrIncludes(ModuleExcludes, None);
    ghost var cleared := sack.maps;
    var names := CollectNames(includes, nameOf);
    var considered := Query(sack, pool);
    var included := Keep(considered, pool, (p: Package) => p.nevra in includes);
    var keep := Keep(considered, pool,
      (p: Package) => p.repo != CMDLINE_REPO && p.repo != SYSTEM_REPO && p.repo !in hotfixRepos);
    var byNevra := Subtract(Keep(keep, pool, (p: Package) => p.nevra in excludes), included);
    var provided := (p: Package) => exists name :: name in p.provided && name in names;
    var byProvides := Subtract(Keep(keep, pool, provided), included);
    var byName := Subtract(Keep(keep, pool, (p: Package) => p.name in names), included);
    sack.SetExcludesOrIncludes(ModuleExcludes, Some(byNevra));
    sack.AddExcludesOrIncludes(ModuleExcludes, byProvides);
    sack.AddExcludesOrIncludes(ModuleExcludes, byName);
    sack.SetModuleIncludes(Some(included));
  }

  // -------------------------------------------------------------- end to end

  /** What the configuration excludes and includes, said in full: the patterns of every repository and of the
      main configuration count, unless excludes and includes are disabled for it or for all. */
  lemma ConfigMeans(config: Config, id: int, r: int)
    ensures Excluded(config, id) <==>
      "all" !in config.disabled &&
      ((exists c, i :: 0 <= c < |config.repos| && config.repos[c].id !in config.disabled &&
          0 <= i < |config.repos[c].excludes| &&
          config.repos[c].excludes[i].matched && Has(config.repos[c].excludes[i].found, id)) ||
       ("main" !in config.disabled &&
        exists i :: 0 <= i < |config.excludes| && config.excludes[i].matched && Has(config.excludes[i].found, id)))
    ensures Included(config, id) <==>
      "all" !in config.disabled &&
      ((exists c, i :: 0 <= c < |config.repos| && config.repos[c].id !in config.disabled &&
          0 <= i < |config.repos[c].includes| &&
          config.repos[c].includes[i].matched && Has(config.repos[c].includes[i].found, id)) ||
       ("main" !in config.disabled &&
        exists i :: 0 <= i < |config.includes| && config.includes[i].matched && Has(config.includes[i].found, id)))
    ensures IncludesExist(config) <==>
      "all" !in config.disabled &&
      ((exists c, i :: 0 <= c < |config.repos| && config.repos[c].id !in config.disabled &&
          0 <= i < |config.repos[c].includes| && config.repos[c].includes[i].matched) ||
       ("main" !in config.disabled && exists i :: 0 <= i < |config.includes| && config.includes[i].matched))
    ensures MadeToUseIncludes(config, r) <==>
      "all" !in config.disabled &&
      ((exists c, i :: 0 <= c < |config.repos| && config.repos[c].id !in config.disabled &&
          config.repos[c].index == r && 0 <= i < |config.repos[c].includes| && config.repos[c].includes[i].matched) ||
       ("main" !in config.disabled && exists i :: 0 <= i < |config.includes| && config.includes[i].matched))
  {
  }

  /** Not excluded, before or by the configuration; and, if there are includes, before or by the
      configuration, included or in a repository that does not use them. */
  predicate Passes(maps: Maps, repos: seq<Repo>, config: Config, id: int) {
    && !In(maps.repoExcludes, id) && !In(maps.pkgExcludes, id) && !Excluded(config, id)
    && ((maps.pkgIncludes.None? && !IncludesExist(config)) || In(maps.pkgIncludes, id) || Included(config, id)
        || exists r :: 0 <= r < |repos| && !repos[r].useIncludes && id in repos[r].solvables)
  }

  /** An artifact of an active module, or of one that is not. */
  predicate InModule(modules: seq<Module>, m: int, nevra: string) {
    0 <= m < |modules| && nevra in modules[m].artifacts
  }

  /** The name belongs to an artifact of an active module. */
  ghost predicate ActiveName(modules: seq<Module>, nameOf: map<string, string>, name: string) {
    exists m, nevra :: nevra in nameOf && InModule(modules, m, nevra) && modules[m].active && nameOf[nevra] == name
  }

  /** The package is masked by modules: not from the system, the command line or a hotfix repository, no
      artifact of an active module, and either an artifact of another module, or its name or something that it
      provides is the name of an artifact of an active module. */
  ghost predicate Masked(p: Package, modules: seq<Module>, hotfixRepos: set<string>, nameOf: map<string, string>) {
    && p.repo !in {SYSTEM_REPO, CMDLINE_REPO} + hotfixRepos
    && !(exists m :: InModule(modules, m, p.nevra) && modules[m].active)
    && ((exists m :: InModule(modules, m, p.nevra) && !modules[m].active)
        || ActiveName(modules, nameOf, p.name)
        || exists name :: name in p.provided && ActiveName(modules, nameOf, name))
  }

  lemma NamesAreActive(modules: seq<Module>, includes: seq<string>, nameOf: map<string, string>, name: string)
    requires forall nevra :: nevra in includes <==> ArtifactOf(modules, true, nevra)
    ensures NamedBy(includes, nameOf, name) <==> ActiveName(modules, nameOf, name)
  {
    if NamedBy(includes, nameOf, name) {
      var i :| 0 <= i < |includes| && includes[i] in nameOf && nameOf[includes[i]] == name;
      assert ArtifactOf(modules, true, includes[i]);
      var m :| 0 <= m < |modules| && modules[m].active == true && includes[i] in modules[m].artifacts;
      assert InModule(modules, m, includes[i]);
    }
    if ActiveName(modules, nameOf, name) {
      var m, nevra :| nevra in nameOf && InModule(modules, m, nevra) && modules[m].active && nameOf[nevra] == name;
      assert ArtifactOf(modules, true, nevra);
      var i :| 0 <= i < |includes| && includes[i] == nevra;
    }
  }

  lemma MaskedMeans(p: Package, modules: seq<Module>, hotfixRepos: set<string>, includes: seq<string>,
                    excludes: seq<string>, nameOf: map<string, string>)
    requires forall nevra :: nevra in includes <==> ArtifactOf(modules, true, nevra)
    requires forall nevra :: nevra in excludes <==> ArtifactOf(modules, false, nevra)
    ensures ModuleExcluded(p, hotfixRepos, includes, excludes, nameOf) <==> Masked(p, modules, hotfixRepos, nameOf)
  {
    hide NamedBy, ActiveName;
    forall name ensures NamedBy(includes, nameOf, name) <==> ActiveName(modules, nameOf, name) {
      NamesAreActive(modules, includes, nameOf, name);
    }
    assert p.nevra in includes <==> exists m :: InModule(modules, m, p.nevra) && modules[m].active;
    assert p.nevra in excludes <==> exists m :: InModule(modules, m, p.nevra) && !modules[m].active;
  }

  /** Applies the configuration and the modules to a sack and returns what a query then starts from: the
      packages that pass and are not masked. What is masked is module-excluded if it passes. */
  method FilterPackages(sack: DnfSack, pool: seq<Package>, config: Config, modules: seq<Module>,
                        hotfixRepos: set<string>, nameOf: map<string, string>)
      returns (seen: Bitmap)
    requires sack.Valid() && |pool| == sack.nsolvables && IndicesExist(config, |sack.repos|)
    modifies sack
    ensures sack.Valid()
    ensures forall id :: In(sack.maps.moduleExcludes, id) <==>
      && 0 <= id < |pool| && pool[id].isPackage
      && Passes(old(sack.maps), sack.repos, config, id) && Masked(pool[id], modules, hotfixRepos, nameOf)
    ensures forall id :: Has(seen, id) <==>
      && 0 <= id < |pool| && pool[id].isPackage
      && Passes(old(sack.maps), sack.repos, config, id) && !Masked(pool[id], modules, hotfixRepos, nameOf)
    ensures |sack.repos| == |old(sack.repos)| && forall r :: 0 <= r < |sack.repos| ==>
      sack.repos[r] == if MadeToUseIncludes(config, r) then old(sack.repos)[r].(useIncludes := true)
                       else old(sack.repos)[r]
  {
    hide Excluded, Included, IncludesExist, MadeToUseIncludes, ModuleExcluded, Masked;
    ghost var before := sack.maps;
    ProcessExcludes(sack, config);
    ghost var configured := sack.maps;
    var includes, excludes := CollectNevras(modules);
    SetModuleExcludes(sack, pool, hotfixRepos, includes, excludes, nameOf);
    seen := Query(sack, pool);
    forall id
      ensures Wanted(configured.(moduleExcludes := None), sack.repos, APPLY_EXCLUDES, id) <==>
              Passes(before, sack.repos, config, id)
      ensures Wanted(sack.maps, sack.repos, APPLY_EXCLUDES, id) <==>
              !In(sack.maps.moduleExcludes, id) && Passes(before, sack.repos, config, id)
    {
      WantedMeans(configured.(moduleExcludes := None), sack.repos, APPLY_EXCLUDES, id);
      WantedMeans(sack.maps, sack.repos, APPLY_EXCLUDES, id);
    }
    forall p: Package
      ensures ModuleExcluded(p, hotfixRepos, includes, excludes, nameOf) <==> Masked(p, modules, hotfixRepos, nameOf)
    {
      MaskedMeans(p, modules, hotfixRepos, includes, excludes, nameOf);
    }
  }

  /** What FilterPackages promises most of all. */
  lemma NeverMasked(p: Package, modules: seq<Module>, m: nat, hotfixRepos: set<string>, nameOf: map<string, string>)
    ensures p.repo == SYSTEM_REPO || p.repo == CMDLINE_REPO || p.repo in hotfixRepos ==>
              !Masked(p, modules, hotfixRepos, nameOf)
    ensures m < |modules| && modules[m].active && p.nevra in modules[m].artifacts ==>
              !Masked(p, modules, hotfixRepos, nameOf)
  {
    assert m < |modules| && p.nevra in modules[m].artifacts ==> InModule(modules, m, p.nevra);
  }
}
