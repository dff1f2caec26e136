/** Which installed package a package upgrades or downgrades, hy-iutil.cpp. The order of EVRs is
  any total preorder, and the packages that provide a name are any list of ids.
 */
module UpgradeSelection {

  /** Name, architecture and EVR are ids of strings. */
  datatype Solvable = Solvable(name: nat, arch: nat, evr: nat, installed: bool)

  const NOARCH: nat := 2

  /** Solvables by id, and what the comparison of two EVRs returns. */
  datatype Pool = Pool(solvables: seq<Solvable>, evrcmp: (nat, nat) -> int) {
    /** Comparing gives a total preorder. */
    ghost predicate Ordered() {
      && (forall a, b :: evrcmp(a, b) < 0 <==> evrcmp(b, a) > 0)
      && (forall a, b, c {:trigger evrcmp(a, b), evrcmp(b, c)} ::
            evrcmp(a, b) <= 0 && evrcmp(b, c) <= 0 ==> evrcmp(a, c) <= 0)
    }

    predicate Exists(id: nat) {
      0 < id < |solvables|
    }

    function Evr(id: nat): nat
      requires Exists(id)
    {
      solvables[id].evr
    }
  }

  /** What the order is used for. */
  lemma Transitive(pool: Pool, a: nat, b: nat, c: nat)
    requires pool.Ordered()
    ensures pool.evrcmp(a, a) == 0
    ensures pool.evrcmp(b, c) < 0 <==> pool.evrcmp(c, b) > 0
    ensures pool.evrcmp(b, c) > 0 <==> pool.evrcmp(c, b) < 0
    ensures pool.evrcmp(a, b) <= 0 && pool.evrcmp(b, c) <= 0 ==> pool.evrcmp(a, c) <= 0
    ensures pool.evrcmp(a, b) >= 0 && pool.evrcmp(b, c) >= 0 ==> pool.evrcmp(a, c) >= 0
    ensures pool.evrcmp(a, b) <= 0 && pool.evrcmp(b, c) < 0 ==> pool.evrcmp(a, c) < 0
    ensures pool.evrcmp(a, b) >= 0 && pool.evrcmp(b, c) > 0 ==> pool.evrcmp(a, c) > 0
  {
    assert pool.evrcmp(a, a) < 0 <==> pool.evrcmp(a, a) > 0;
    assert pool.evrcmp(a, b) < 0 <==> pool.evrcmp(b, a) > 0;
    assert pool.evrcmp(b, a) < 0 <==> pool.evrcmp(a, b) > 0;
    assert pool.evrcmp(b, c) < 0 <==> pool.evrcmp(c, b) > 0;
    assert pool.evrcmp(c, b) < 0 <==> pool.evrcmp(b, c) > 0;
    assert pool.evrcmp(a, c) < 0 <==> pool.evrcmp(c, a) > 0;
    assert pool.evrcmp(c, a) < 0 <==> pool.evrcmp(a, c) > 0;
    assert pool.evrcmp(c, a) <= 0 && pool.evrcmp(a, b) <= 0 ==> pool.evrcmp(c, b) <= 0;
    assert pool.evrcmp(b, c) <= 0 && pool.evrcmp(c, a) <= 0 ==> pool.evrcmp(b, a) <= 0;
  }

  predicate AllExist(pool: Pool, ids: seq<nat>) {
    forall i :: 0 <= i < |ids| ==> pool.Exists(ids[i])
  }

  predicate InstalledNamesake(pool: Pool, p: nat, pkg: nat)
    requires pool.Exists(p) && pool.Exists(pkg)
  {
    pool.solvables[p].installed && pool.solvables[p].name == pool.solvables[pkg].name
  }

  /** An installed package that pkg could upgrade, but for its EVR. */
  predicate Upgradable(pool: Pool, p: nat, pkg: nat)
    requires pool.Exists(p) && pool.Exists(pkg)
  {
    var arch, arch' := pool.solvables[p].arch, pool.solvables[pkg].arch;
    InstalledNamesake(pool, p, pkg) && (arch == arch' || arch == NOARCH || arch' == NOARCH)
  }

  predicate Downgradable(pool: Pool, p: nat, pkg: nat)
    requires pool.Exists(p) && pool.Exists(pkg)
  {
    InstalledNamesake(pool, p, pkg) && pool.solvables[p].arch == pool.solvables[pkg].arch
  }

  /** The result for a list of providers: the first of the upgradable packages with the greatest EVR
      if they are all older than pkg, and 0 if there is none or one is not. */
  ghost predicate Upgrades(pool: Pool, providers: seq<nat>, pkg: nat, l: nat)
    requires AllExist(pool, providers) && pool.Exists(pkg)
  {
    && (l != 0 <==>
        && (exists i :: 0 <= i < |providers| && Upgradable(pool, providers[i], pkg))
        && (forall i :: 0 <= i < |providers| && Upgradable(pool, providers[i], pkg) ==>
              pool.evrcmp(pool.Evr(providers[i]), pool.Evr(pkg)) < 0))
    && (l != 0 ==>
        exists k :: 0 <= k < |providers| && providers[k] == l && Greatest(pool, providers, pkg, k, |providers|))
  }

  /** Of the first n providers. */
  ghost predicate Greatest(pool: Pool, providers: seq<nat>, pkg: nat, k: nat, n: nat)
    requires AllExist(pool, providers) && pool.Exists(pkg) && k < n <= |providers|
  {
    && Upgradable(pool, providers[k], pkg)
    && (forall i :: 0 <= i < n && Upgradable(pool, providers[i], pkg) ==>
          pool.evrcmp(pool.Evr(providers[i]), pool.Evr(providers[k])) <= 0)
    && (forall i :: 0 <= i < k && Upgradable(pool, providers[i], pkg) ==>
          pool.evrcmp(pool.Evr(providers[i]), pool.Evr(providers[k])) < 0)
  }

  lemma GreatestSo(pool: Pool, providers: seq<nat>, pkg: nat, k: nat, n: nat)
    requires pool.Ordered() && AllExist(pool, providers) && pool.Exists(pkg) && n < |providers|
    requires Upgradable(pool, providers[n], pkg)
    requires k < n && Greatest(pool, providers, pkg, k, n)
    requires pool.evrcmp(pool.Evr(providers[n]), pool.Evr(providers[k])) > 0
    ensures Greatest(pool, providers, pkg, n, n + 1)
  {
    hide Upgradable, Pool.Ordered;
    forall i | 0 <= i <= n && Upgradable(pool, providers[i], pkg)
      ensures pool.evrcmp(pool.Evr(providers[i]), pool.Evr(providers[n])) <= 0
      ensures i < n ==> pool.evrcmp(pool.Evr(providers[i]), pool.Evr(providers[n])) < 0
    {
      Transitive(pool, pool.Evr(providers[i]), pool.Evr(providers[k]), pool.Evr(providers[n]));
    }
  }

  /** The dual: the first of the downgradable packages with the lowest EVR if they are all newer. */
  ghost predicate Downgrades(pool: Pool, providers: seq<nat>, pkg: nat, l: nat)
    requires AllExist(pool, providers) && pool.Exists(pkg)
  {
    && (l != 0 <==>
        && (exists i :: 0 <= i < |providers| && Downgradable(pool, providers[i], pkg))
        && (forall i :: 0 <= i < |providers| && Downgradable(pool, providers[i], pkg) ==>
              pool.evrcmp(pool.Evr(providers[i]), pool.Evr(pkg)) > 0))
    && (l != 0 ==>
        exists k :: 0 <= k < |providers| && providers[k] == l && Lowest(pool, providers, pkg, k, |providers|))
  }

  /** Of the first n providers. */
  ghost predicate Lowest(pool: Pool, providers: seq<nat>, pkg: nat, k: nat, n: nat)
    requires AllExist(pool, providers) && pool.Exists(pkg) && k < n <= |providers|
  {
    && Downgradable(pool, providers[k], pkg)
    && (forall i :: 0 <= i < n && Downgradable(pool, providers[i], pkg) ==>
          pool.evrcmp(pool.Evr(providers[i]), pool.Evr(providers[k])) >= 0)
    && (forall i :: 0 <= i < k && Downgradable(pool, providers[i], pkg) ==>
          pool.evrcmp(pool.Evr(providers[i]), pool.Evr(providers[k])) > 0)
  }

  lemma LowestSo(pool: Pool, providers: seq<nat>, pkg: nat, k: nat, n: nat)
    requires pool.Ordered() && AllExist(pool, providers) && pool.Exists(pkg) && n < |providers|
    requires Downgradable(pool, providers[n], pkg)
    requires k < n && Lowest(pool, providers, pkg, k, n)
    requires pool.evrcmp(pool.Evr(providers[n]), pool.Evr(providers[k])) < 0
    ensures Lowest(pool, providers, pkg, n, n + 1)
  {
    hide Downgradable, Pool.Ordered;
    forall i | 0 <= i <= n && Downgradable(pool, providers[i], pkg)
      ensures pool.evrcmp(pool.Evr(providers[i]), pool.Evr(providers[n])) >= 0
      ensures i < n ==> pool.evrcmp(pool.Evr(providers[i]), pool.Evr(providers[n])) > 0
    {
      Transitive(pool, pool.Evr(providers[i]), pool.Evr(providers[k]), pool.Evr(providers[n]));
    }
  }

  method WhatUpgrades(pool: Pool, providers: seq<nat>, pkg: nat) returns (l: nat)
    requires pool.Ordered() && AllExist(pool, providers) && pool.Exists(pkg)
    ensures Upgrades(pool, providers, pkg, l)
  {
    hide Pool.Ordered, Pool.Evr;
    l := 0;
    var lEvr := 0;
    ghost var best: nat := 0;
    for n := 0 to |providers|
      invariant l == 0 ==> forall i :: 0 <= i < n ==> !Upgradable(pool, providers[i], pkg)
      invariant l != 0 ==> best < n && providers[best] == l && lEvr == pool.Evr(l)
      invariant l != 0 ==> Greatest(pool, providers, pkg, best, n)
      invariant forall i :: 0 <= i < n && Upgradable(pool, providers[i], pkg) ==>
                  pool.evrcmp(pool.Evr(providers[i]), pool.Evr(pkg)) < 0
    {
      var p := providers[n];
      if !Upgradable(pool, p, pkg) {
        continue;
      }
      if pool.evrcmp(pool.Evr(p), pool.Evr(pkg)) >= 0 {
        return 0;
      }
      Transitive(pool, pool.Evr(p), pool.Evr(p), lEvr);
      if l == 0 || pool.evrcmp(pool.Evr(p), lEvr) > 0 {
        if l != 0 {
          GreatestSo(pool, providers, pkg, best, n);
        }
        l, lEvr, best := p, pool.Evr(p), n;
      }
    }
  }

  method WhatDowngrades(pool: Pool, providers: seq<nat>, pkg: nat) returns (l: nat)
    requires pool.Ordered() && AllExist(pool, providers) && pool.Exists(pkg)
    ensures Downgrades(pool, providers, pkg, l)
  {
    hide Pool.Ordered, Pool.Evr;
    l := 0;
    var lEvr := 0;
    ghost var best: nat := 0;
    for n := 0 to |providers|
      invariant l == 0 ==> forall i :: 0 <= i < n ==> !Downgradable(pool, providers[i], pkg)
      invariant l != 0 ==> best < n && providers[best] == l && lEvr == pool.Evr(l)
      invariant l != 0 ==> Lowest(pool, providers, pkg, best, n)
      invariant forall i :: 0 <= i < n && Downgradable(pool, providers[i], pkg) ==>
                  pool.evrcmp(pool.Evr(providers[i]), pool.Evr(pkg)) > 0
    {
      var p := providers[n];
      if !Downgradable(pool, p, pkg) {
        continue;
      }
      if pool.evrcmp(pool.Evr(p), pool.Evr(pkg)) <= 0 {
        return 0;
      }
      Transitive(pool, pool.Evr(p), pool.Evr(p), lEvr);
      if l == 0 || pool.evrcmp(pool.Evr(p), lEvr) < 0 {
        if l != 0 {
          LowestSo(pool, providers, pkg, best, n);
        }
        l, lEvr, best := p, pool.Evr(p), n;
      }
    }
  }

  /** What can be upgraded, said in full: an installed package of the same name, of the same architecture or
      where either is noarch. */
  lemma UpgradesMeans(pool: Pool, providers: seq<nat>, pkg: nat, l: nat)
    requires AllExist(pool, providers) && pool.Exists(pkg) && Upgrades(pool, providers, pkg, l)
    ensures var s := pool.solvables;
      var fits := (p: nat) requires p < |s| =>
        s[p].installed && s[p].name == s[pkg].name &&
        (s[p].arch == s[pkg].arch || s[p].arch == NOARCH || s[pkg].arch == NOARCH);
      && (l != 0 <==> (exists i :: 0 <= i < |providers| && fits(providers[i])) &&
                      (forall i :: 0 <= i < |providers| && fits(providers[i]) ==>
                         pool.evrcmp(s[providers[i]].evr, s[pkg].evr) < 0))
      && (l != 0 ==> l in providers && fits(l) &&
                     forall i :: 0 <= i < |providers| && fits(providers[i]) ==>
                       pool.evrcmp(s[providers[i]].evr, s[l].evr) <= 0)
  {
  }

  /** What can be downgraded: an installed package of the same name and architecture. */
  lemma DowngradesMeans(pool: Pool, providers: seq<nat>, pkg: nat, l: nat)
    requires AllExist(pool, providers) && pool.Exists(pkg) && Downgrades(pool, providers, pkg, l)
    ensures var s := pool.solvables;
      var fits := (p: nat) requires p < |s| =>
        s[p].installed && s[p].name == s[pkg].name && s[p].arch == s[pkg].arch;
      && (l != 0 <==> (exists i :: 0 <= i < |providers| && fits(providers[i])) &&
                      (forall i :: 0 <= i < |providers| && fits(providers[i]) ==>
                         pool.evrcmp(s[providers[i]].evr, s[pkg].evr) > 0))
      && (l != 0 ==> l in providers && fits(l) &&
                     forall i :: 0 <= i < |providers| && fits(providers[i]) ==>
                       pool.evrcmp(s[providers[i]].evr, s[l].evr) >= 0)
  {
  }

  /** The results are determined. */
  lemma OneUpgrade(pool: Pool, providers: seq<nat>, pkg: nat, l: nat, l': nat)
    requires pool.Ordered() && AllExist(pool, providers) && pool.Exists(pkg)
    requires Upgrades(pool, providers, pkg, l) && Upgrades(pool, providers, pkg, l')
    ensures l == l'
  {
    hide Pool.Ordered, Upgradable;
    if l != 0 {
      var k :| 0 <= k < |providers| && providers[k] == l && Greatest(pool, providers, pkg, k, |providers|);
      var k' :| 0 <= k' < |providers| && providers[k'] == l' && Greatest(pool, providers, pkg, k', |providers|);
      Transitive(pool, 0, pool.Evr(l), pool.Evr(l'));
      Transitive(pool, 0, pool.Evr(l'), pool.Evr(l));
    }
  }

  lemma OneDowngrade(pool: Pool, providers: seq<nat>, pkg: nat, l: nat, l': nat)
    requires pool.Ordered() && AllExist(pool, providers) && pool.Exists(pkg)
    requires Downgrades(pool, providers, pkg, l) && Downgrades(pool, providers, pkg, l')
    ensures l == l'
  {
    hide Pool.Ordered, Downgradable;
    if l != 0 {
      var k :| 0 <= k < |providers| && providers[k] == l && Lowest(pool, providers, pkg, k, |providers|);
      var k' :| 0 <= k' < |providers| && providers[k'] == l' && Lowest(pool, providers, pkg, k', |providers|);
      Transitive(pool, 0, pool.Evr(l), pool.Evr(l'));
      Transitive(pool, 0, pool.Evr(l'), pool.Evr(l));
    }
  }

  /** No package is at once an upgrade and a downgrade. */
  lemma NeverBoth(pool: Pool, providers: seq<nat>, pkg: nat, up: nat, down: nat)
    requires pool.Ordered() && AllExist(pool, providers) && pool.Exists(pkg)
    requires Upgrades(pool, providers, pkg, up) && Downgrades(pool, providers, pkg, down)
    ensures up == 0 || down == 0
  {
    hide Pool.Ordered;
    if down != 0 {
      var k :| 0 <= k < |providers| && Downgradable(pool, providers[k], pkg);
      assert Upgradable(pool, providers[k], pkg);
      assert pool.evrcmp(pool.Evr(providers[k]), pool.Evr(pkg)) > 0;
    }
  }

  /** An installed package that provides its own name is neither. */
  lemma InstalledIsNeither(pool: Pool, providers: seq<nat>, pkg: nat, up: nat, down: nat)
    requires pool.Ordered() && AllExist(pool, providers) && pool.Exists(pkg)
    requires pkg in providers && pool.solvables[pkg].installed
    requires Upgrades(pool, providers, pkg, up) && Downgrades(pool, providers, pkg, down)
    ensures up == 0 && down == 0
  {
    var k :| 0 <= k < |providers| && providers[k] == pkg;
    assert Upgradable(pool, providers[k], pkg) && Downgradable(pool, providers[k], pkg);
    assert pool.evrcmp(pool.Evr(pkg), pool.Evr(pkg)) == 0;
  }
}
