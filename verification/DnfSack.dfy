/** The considered-package cache of dnf-sack.cpp: a bitmap in the pool that is recomputed when a
  flag says it is out of date, and the calls that change what it depends on.

  Only loads that succeed are modelled, and queries and libsolv pools are represented by the
  bitmaps and solvable ids they yield.
 */
module DnfSacks {
  import opened Options
  import opened Bitmaps

  /** A repository of the pool, with the flags its HyRepo carries. */
  datatype Repo = Repo(name: string, solvables: seq<nat>, useIncludes: bool, disabled: bool)

  /** Which of the excludes a recomputation leaves out of account. */
  datatype ExcludeFlags = ExcludeFlags(ignoreRegular: bool, ignoreModular: bool)

  const APPLY_EXCLUDES := ExcludeFlags(false, false)

  /** The three maps that share the code for adding, removing and setting. */
  datatype Slot = PkgExcludes | PkgIncludes | ModuleExcludes

  datatype Maps = Maps(
    pkgExcludes: Option<Bitmap>,
    pkgIncludes: Option<Bitmap>,
    repoExcludes: Option<Bitmap>,
    moduleExcludes: Option<Bitmap>)
  {
    function At(slot: Slot): Option<Bitmap> {
      match slot
      case PkgExcludes => pkgExcludes
      case PkgIncludes => pkgIncludes
      case ModuleExcludes => moduleExcludes
    }

    function With(slot: Slot, m: Option<Bitmap>): Maps {
      match slot
      case PkgExcludes => this.(pkgExcludes := m)
      case PkgIncludes => this.(pkgIncludes := m)
      case ModuleExcludes => this.(moduleExcludes := m)
    }
  }

  const NO_MAPS := Maps(None, None, None, None)

  predicate In(m: Option<Bitmap>, id: int) {
    m.Some? && Has(m.value, id)
  }

  /** The id belongs to a repository that does not use includes. */
  predicate FreeOfIncludes(repos: seq<Repo>, id: int) {
    exists r :: 0 <= r < |repos| && !repos[r].useIncludes && id in repos[r].solvables
  }

  /** What the cache is to say of a solvable: not excluded by module, repository or package, and,
      when there are includes, included or from a repository that does not use them. */
  predicate Wanted(maps: Maps, repos: seq<Repo>, flags: ExcludeFlags, id: int) {
    && (flags.ignoreModular || !In(maps.moduleExcludes, id))
    && (flags.ignoreRegular ||
        (!In(maps.repoExcludes, id) && !In(maps.pkgExcludes, id) &&
         (maps.pkgIncludes.None? || In(maps.pkgIncludes, id) || FreeOfIncludes(repos, id))))
  }

  /** The cached bitmap says of every solvable what is wanted; no bitmap means all solvables. */
  predicate Denotes(considered: Option<Bitmap>, n: nat, maps: Maps, repos: seq<Repo>, flags: ExcludeFlags) {
    && (considered.Some? ==> n <= |considered.value|)
    && forall id :: 0 <= id < n ==>
         (considered.None? || Has(considered.value, id) <==> Wanted(maps, repos, flags, id))
  }

  predicate PoolHolds(repos: seq<Repo>, n: nat) {
    forall r :: 0 <= r < |repos| ==> forall id :: id in repos[r].solvables ==> id < n
  }

  /** The first repository with this name. */
  predicate IsNamed(repos: seq<Repo>, name: string, r: int) {
    0 <= r < |repos| && repos[r].name == name && forall j :: 0 <= j < r ==> repos[j].name != name
  }

  ghost predicate SameIncludes(a: Maps, b: Maps) {
    && a == b.(pkgIncludes := a.pkgIncludes) && (a.pkgIncludes.None? <==> b.pkgIncludes.None?)
    && forall id :: In(a.pkgIncludes, id) <==> In(b.pkgIncludes, id)
  }

  lemma SameIncludesDenote(considered: Option<Bitmap>, n: nat, a: Maps, b: Maps, repos: seq<Repo>, flags: ExcludeFlags)
    requires SameIncludes(a, b)
    ensures Denotes(considered, n, a, repos, flags) <==> Denotes(considered, n, b, repos, flags)
  {
    forall id ensures Wanted(a, repos, flags, id) <==> Wanted(b, repos, flags, id) {
    }
  }

  class DnfSack {
    var nsolvables: nat
    var repos: seq<Repo>
    var maps: Maps
    var moduleIncludes: Option<Bitmap>
    var considered: Option<Bitmap>
    var consideredUptodate: bool

    /** The pool starts with its two reserved solvables. */
    constructor ()
      ensures Valid() && consideredUptodate && nsolvables == 2 && repos == [] && maps == NO_MAPS
    {
      nsolvables := 2;
      repos, maps, moduleIncludes, considered, consideredUptodate := [], NO_MAPS, None, None, true;
    }

    /** The pool holds every solvable of every repository, and the cache agrees with the maps and
        flags whenever it claims to be up to date. */
    predicate Valid()
      reads this
    {
      && PoolHolds(repos, nsolvables)
      && (consideredUptodate ==> Denotes(considered, nsolvables, maps, repos, APPLY_EXCLUDES))
    }

    // ------------------------------------------------------- recomputation

    /** Recomputes a considered map under some flags. The only other effect is that the includes
        map may grow without changing what it holds. */
    method RecomputeConsideredMap(old_: Option<Bitmap>, flags: ExcludeFlags) returns (m: Option<Bitmap>)
      requires Valid()
      modifies this`maps
      ensures Valid()
      ensures Denotes(m, nsolvables, maps, repos, flags)
      ensures m.None? <==> old_.None? && !Effective(old(maps), flags)
      ensures SameIncludes(maps, old(maps))
    {
      hide Wanted, FreeOfIncludes;
      if old_.None? && !Effective(maps, flags) {
        NothingExcluded(maps, repos, flags, nsolvables);
        return None;
      }
      var all := SetAll(if old_.None? then Empty(nsolvables) else Grow(old_.value, nsolvables));
      var unmoduled := if flags.ignoreModular then all else Without(all, maps.moduleExcludes);
      var result := unmoduled;
      if !flags.ignoreRegular {
        result := Without(Without(unmoduled, maps.repoExcludes), maps.pkgExcludes);
        if maps.pkgIncludes.Some? {
          var grown := Grow(maps.pkgIncludes.value, nsolvables);
          var included := WithFreeRepos(grown);
          result := And(result, included);
          maps := maps.(pkgIncludes := Some(grown));
        }
      }
      m := Some(result);
      SameIncludesDenote(considered, nsolvables, maps, old(maps), repos, APPLY_EXCLUDES);
      forall id | 0 <= id < nsolvables ensures Has(result, id) <==> Wanted(maps, repos, flags, id) {
        WantedMeans(maps, repos, flags, id);
      }
    }

    /** The included ids and every solvable of the repositories that do not use includes. */
    method WithFreeRepos(includes: Bitmap) returns (m: Bitmap)
      requires PoolHolds(repos, nsolvables) && nsolvables <= |includes|
      ensures |m| == |includes|
      ensures forall id :: Has(m, id) <==> Has(includes, id) || FreeOfIncludes(repos, id)
    {
      m := includes;
      var r := 0;
      while r < |repos|
        invariant r <= |repos| && |m| == |includes|
        invariant forall id :: Has(m, id) <==> Has(includes, id) || FreeOfIncludes(repos[..r], id)
      {
        if !repos[r].useIncludes {
          m := MarkAll(m, repos[r].solvables, true);
        }
        forall id ensures FreeOfIncludes(repos[..r + 1], id) <==>
          FreeOfIncludes(repos[..r], id) || (!repos[r].useIncludes && id in repos[r].solvables)
        {
          FreeOneMore(repos, r, id);
        }
        r := r + 1;
      }
      assert repos[..r] == repos;
    }

    method RecomputeConsidered()
      requires Valid()
      modifies this`maps, this`considered, this`consideredUptodate
      ensures Valid() && consideredUptodate
      ensures Denotes(considered, nsolvables, maps, repos, APPLY_EXCLUDES)
      ensures SameIncludes(maps, old(maps))
    {
      if consideredUptodate {
        return;
      }
      considered := RecomputeConsideredMap(considered, APPLY_EXCLUDES);
      consideredUptodate := true;
    }

    // ------------------------------------------------------------- mutators

    method AddExcludesOrIncludes(slot: Slot, pkgset: Bitmap)
      requires PoolHolds(repos, nsolvables)
      modifies this`maps, this`consideredUptodate
      ensures Valid() && !consideredUptodate
      ensures maps == old(maps).With(slot, maps.At(slot)) && maps.At(slot).Some?
      ensures forall id :: In(maps.At(slot), id) <==> In(old(maps).At(slot), id) || Has(pkgset, id)
    {
      var dest := if maps.At(slot).Some? then maps.At(slot).value else Empty(nsolvables);
      maps := maps.With(slot, Some(Union(dest, pkgset)));
      consideredUptodate := false;
    }

    method RemoveExcludesOrIncludes(slot: Slot, pkgset: Bitmap)
      requires Valid()
      modifies this`maps, this`consideredUptodate
      ensures Valid()
      ensures maps == old(maps).With(slot, maps.At(slot))
      ensures maps.At(slot).Some? <==> old(maps).At(slot).Some?
      ensures forall id :: In(maps.At(slot), id) <==> In(old(maps).At(slot), id) && !Has(pkgset, id)
    {
      if maps.At(slot).None? {
        return;
      }
      maps := maps.With(slot, Some(Subtract(maps.At(slot).value, pkgset)));
      consideredUptodate := false;
    }

    method SetExcludesOrIncludes(slot: Slot, pkgset: Option<Bitmap>)
      requires Valid()
      modifies this`maps, this`consideredUptodate
      ensures Valid()
      ensures maps == old(maps).With(slot, pkgset)
    {
      if maps.At(slot).None? && pkgset.None? {
        return;
      }
      maps := maps.With(slot, pkgset);
      consideredUptodate := false;
    }

    /** The module includes do not take part in what is considered. */
    method SetModuleIncludes(pkgset: Option<Bitmap>)
      requires Valid()
      modifies this`moduleIncludes
      ensures Valid()
      ensures moduleIncludes == if pkgset.None? then old(moduleIncludes) else pkgset
    {
      if pkgset.None? {
        return;
      }
      moduleIncludes := pkgset;
    }

    /** Sets the flag of the named repository, or of all repositories when there is no name. An
        unknown name is an error and changes nothing. */
    method SetUseIncludes(reponame: Option<string>, enabled: bool) returns (ok: bool)
      requires PoolHolds(repos, nsolvables)
      modifies this`repos, this`consideredUptodate
      ensures PoolHolds(repos, nsolvables) && (old(Valid()) ==> Valid())
      ensures ok <==> reponame.None? || exists r :: IsNamed(repos, reponame.value, r)
      ensures |repos| == |old(repos)| && (!ok ==> repos == old(repos))
      ensures forall r :: 0 <= r < |repos| ==>
        repos[r] == if ok && (reponame.None? || IsNamed(old(repos), reponame.value, r))
                    then old(repos)[r].(useIncludes := enabled) else old(repos)[r]
    {
      if reponame.Some? {
        var r := RepoByName(reponame.value);
        if r == |repos| {
          return false;
        }
        if repos[r].useIncludes != enabled {
          repos := repos[r := repos[r].(useIncludes := enabled)];
          consideredUptodate := false;
        }
        assert IsNamed(repos, reponame.value, r);
        return true;
      }
      ghost var before := repos;
      var i := 0;
      while i < |repos|
        invariant i <= |repos| == |before|
        invariant forall r :: 0 <= r < i ==> repos[r] == before[r].(useIncludes := enabled)
        invariant forall r :: i <= r < |repos| ==> repos[r] == before[r]
        invariant consideredUptodate ==> repos == before
        invariant PoolHolds(repos, nsolvables) && (old(Valid()) ==> Valid())
      {
        if repos[i].useIncludes != enabled {
          repos := repos[i := repos[i].(useIncludes := enabled)];
          consideredUptodate := false;
        } else {
          assert repos[i] == before[i].(useIncludes := enabled);
        }
        i := i + 1;
      }
      ok := true;
    }

    /** The first repository with this name, or the number of repositories. */
    method RepoByName(name: string) returns (r: nat)
      ensures r <= |repos| && (r < |repos| ==> IsNamed(repos, name, r))
      ensures forall j :: 0 <= j < r ==> repos[j].name != name
    {
      r := 0;
      while r < |repos| && repos[r].name != name
        invariant r <= |repos| && forall j :: 0 <= j < r ==> repos[j].name != name
      {
        r := r + 1;
      }
    }

    method SetConsideredToUpdate()
      requires Valid()
      modifies this`consideredUptodate
      ensures Valid() && !consideredUptodate
    {
      consideredUptodate := false;
    }

    /** Enables or disables the first repository with this name: exactly its solvables leave or
        enter the repository excludes. The map is written without a size check, so when it exists
        it has to cover the solvables of the repository. */
    method RepoEnabled(reponame: string, enabled: bool) returns (ok: bool)
      requires Valid()
      requires maps.repoExcludes.Some? ==>
        forall r :: IsNamed(repos, reponame, r) ==>
          forall id :: id in repos[r].solvables ==> id < |maps.repoExcludes.value|
      modifies this`maps, this`repos, this`consideredUptodate
      ensures Valid()
      ensures ok <==> exists r :: IsNamed(old(repos), reponame, r)
      ensures !ok ==> maps == old(maps) && repos == old(repos) && consideredUptodate == old(consideredUptodate)
      ensures ok ==> !consideredUptodate && maps == old(maps).(repoExcludes := maps.repoExcludes)
      ensures forall r :: IsNamed(old(repos), reponame, r) ==>
        && repos == old(repos)[r := old(repos)[r].(disabled := !enabled)]
        && forall id :: In(maps.repoExcludes, id) <==>
             (if id in old(repos)[r].solvables then !enabled else In(old(maps).repoExcludes, id))
    {
      var r := RepoByName(reponame);
      if r == |repos| {
        return false;
      }
      var excludes := if maps.repoExcludes.Some? then maps.repoExcludes.value else Empty(nsolvables);
      repos := repos[r := repos[r].(disabled := !enabled)];
      excludes := MarkAll(excludes, repos[r].solvables, !enabled);
      maps := maps.(repoExcludes := Some(excludes));
      consideredUptodate := false;
      ok := true;
    }

    /** A successful load: a new repository whose solvables extend the pool. */
    method LoadRepo(name: string, solvables: seq<nat>, useIncludes: bool, newSize: nat)
      requires Valid() && nsolvables <= newSize
      requires forall id :: id in solvables ==> nsolvables <= id < newSize
      modifies this`repos, this`nsolvables, this`consideredUptodate
      ensures Valid() && !consideredUptodate && nsolvables == newSize
      ensures repos == old(repos) + [Repo(name, solvables, useIncludes, false)]
    {
      repos := repos + [Repo(name, solvables, useIncludes, false)];
      nsolvables := newSize;
      consideredUptodate := false;
    }
  }

  /** Some map that these flags take into account exists. */
  predicate Effective(maps: Maps, flags: ExcludeFlags) {
    || (!flags.ignoreRegular && (maps.repoExcludes.Some? || maps.pkgExcludes.Some? || maps.pkgIncludes.Some?))
    || (!flags.ignoreModular && maps.moduleExcludes.Some?)
  }

  function Without(m: Bitmap, excludes: Option<Bitmap>): (r: Bitmap)
    ensures |r| == |m| && forall id :: Has(r, id) <==> Has(m, id) && !In(excludes, id)
  {
    if excludes.Some? then Subtract(m, excludes.value) else m
  }

  lemma NothingExcluded(maps: Maps, repos: seq<Repo>, flags: ExcludeFlags, n: nat)
    requires !Effective(maps, flags)
    ensures Denotes(None, n, maps, repos, flags)
  {
  }

  /** The formula by which the map is computed. */
  lemma WantedMeans(maps: Maps, repos: seq<Repo>, flags: ExcludeFlags, id: int)
    ensures Wanted(maps, repos, flags, id) <==>
      && (flags.ignoreModular || !In(maps.moduleExcludes, id))
      && (flags.ignoreRegular || (!In(maps.repoExcludes, id) && !In(maps.pkgExcludes, id)))
      && (flags.ignoreRegular || maps.pkgIncludes.None? || In(maps.pkgIncludes, id) || FreeOfIncludes(repos, id))
  {
  }

  /** Sets or clears the bits of the given ids, one by one. */
  method MarkAll(m: Bitmap, ids: seq<nat>, value: bool) returns (r: Bitmap)
    requires forall id :: id in ids ==> id < |m|
    ensures |r| == |m|
    ensures forall id :: Has(r, id) <==> if id in ids then value else Has(m, id)
  {
    r := m;
    var i := 0;
    while i < |ids|
      invariant i <= |ids| && |r| == |m|
      invariant forall id :: Has(r, id) <==> if id in ids[..i] then value else Has(m, id)
    {
      assert ids[i] in ids;
      r := r[ids[i] := value];
      assert ids[..i + 1] == ids[..i] + [ids[i]];
      i := i + 1;
    }
    assert ids[..i] == ids;
  }

  lemma FreeOneMore(repos: seq<Repo>, r: nat, id: int)
    requires r < |repos|
    ensures FreeOfIncludes(repos[..r + 1], id) <==>
      FreeOfIncludes(repos[..r], id) || (!repos[r].useIncludes && id in repos[r].solvables)
  {
    assert repos[..r + 1] == repos[..r] + [repos[r]];
    if !repos[r].useIncludes && id in repos[r].solvables {
      assert repos[..r + 1][r] == repos[r];
    }
    if FreeOfIncludes(repos[..r], id) {
      var j :| 0 <= j < r && !repos[..r][j].useIncludes && id in repos[..r][j].solvables;
      assert repos[..r + 1][j] == repos[..r][j];
    }
  }
}
