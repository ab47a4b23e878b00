/**
 * The configuration editor's table of per-package managers: one manager per
 * package identity hash, created on first use and kept in the order the
 * hashes were first seen (JavaScript `Map` insertion order), and the
 * concatenation of every manager's changes in that order.
 */
module ConfigManagement {

  /** What the editor needs of a workspace: the identity hash of its name and its directory. */
  datatype PackageLike = PackageLike(identHash: string, cwd: string)

  /**
   * The per-package manager. Reading and diffing the package's files is not
   * part of this model; its change list is a parameter of `GenerateChangeset`.
   */
  class PackageConfigsManager {
    const package: PackageLike

    constructor(package: PackageLike)
      ensures this.package == package
    {
      this.package := package;
    }
  }

  /** The concatenation of a list of lists, first to last (`reduce((a, b) => a.concat(b), [])`). */
  function Flatten<C>(lists: seq<seq<C>>): (r: seq<C>)
    ensures |lists| > 0 ==> lists[0] <= r
  {
    if lists == [] then [] else lists[0] + Flatten(lists[1..])
  }

  lemma {:induction false} FlattenAppend<C>(lists: seq<seq<C>>, last: seq<C>)
    ensures Flatten(lists + [last]) == Flatten(lists) + last
  {
    if lists != [] {
      assert (lists + [last])[1..] == lists[1..] + [last];
      FlattenAppend(lists[1..], last);
    }
  }

  /** Every element of the flattening comes from one of the lists, and every list's elements are in it. */
  lemma {:induction false} FlattenMembers<C>(lists: seq<seq<C>>, x: C)
    ensures x in Flatten(lists) <==> exists i :: 0 <= i < |lists| && x in lists[i]
  {
    if lists != [] {
      FlattenMembers(lists[1..], x);
      if x in lists[0] {
        assert 0 < |lists| && x in lists[0];
      }
      if exists i :: 0 <= i < |lists[1..]| && x in lists[1..][i] {
        var i :| 0 <= i < |lists[1..]| && x in lists[1..][i];
        assert x in lists[i + 1];
      }
      if exists i :: 0 <= i < |lists| && x in lists[i] {
        var i :| 0 <= i < |lists| && x in lists[i];
        if i > 0 {
          assert x in lists[1..][i - 1];
        }
      }
    }
  }

  class ConfigManager {
    /** `manifestIdentToConfigManager`: identity hash to manager. */
    var table: map<string, PackageConfigsManager>
    /** The keys of `table` in insertion order. */
    var order: seq<string>

    ghost predicate Valid()
      reads this
    {
      && (forall i, j :: 0 <= i < j < |order| ==> order[i] != order[j])
      && table.Keys == set k | k in order
    }

    constructor()
      ensures Valid() && table == map[] && order == []
    {
      table := map[];
      order := [];
    }

    /**
     * `getManagerForPackageLike`: the stored manager on a hit, leaving the table as it
     * was; otherwise a new manager for the package, stored under its hash and returned.
     * Only the identity hash is consulted.
     */
    method GetManagerForPackageLike(p: PackageLike) returns (m: PackageConfigsManager)
      requires Valid()
      modifies this
      ensures Valid()
      ensures p.identHash in table && table[p.identHash] == m
      ensures p.identHash in old(table) ==> m == old(table)[p.identHash] && table == old(table) && order == old(order)
      ensures p.identHash !in old(table) ==>
        && fresh(m) && m.package == p
        && table == old(table)[p.identHash := m]
        && order == old(order) + [p.identHash]
    {
      if p.identHash in table {
        return table[p.identHash];
      }
      m := new PackageConfigsManager(p);
      table := table[p.identHash := m];
      order := order + [p.identHash];
    }

    /** Each manager's changes, managers in insertion order. */
    ghost function ChangeLists<C>(changesetOf: PackageLike -> seq<C>): (lists: seq<seq<C>>)
      reads this
      requires Valid()
      ensures |lists| == |order|
      ensures forall i :: 0 <= i < |order| ==> order[i] in table && lists[i] == changesetOf(table[order[i]].package)
    {
      assert forall i :: 0 <= i < |order| ==> order[i] in table.Keys;
      seq(|order|, i requires 0 <= i < |order| && order[i] in table reads this => changesetOf(table[order[i]].package))
    }

    /**
     * `generateChangeset`: every manager's changes, managers taken in insertion order,
     * concatenated. `changesetOf` stands for each manager's own `generateChangeset`.
     */
    method GenerateChangeset<C>(changesetOf: PackageLike -> seq<C>) returns (changes: seq<C>)
      requires Valid()
      ensures changes == Flatten(ChangeLists(changesetOf))
      ensures forall c :: c in changes <==> exists k :: k in table && c in changesetOf(table[k].package)
    {
      ghost var lists := ChangeLists(changesetOf);
      changes := [];
      var n := 0;
      while n < |order|
        invariant n <= |order|
        invariant changes == Flatten(lists[..n])
      {
        FlattenAppend(lists[..n], lists[n]);
        assert lists[..n + 1] == lists[..n] + [lists[n]];
        changes := changes + changesetOf(table[order[n]].package);
        n := n + 1;
      }
      assert lists[..n] == lists;
      forall c
        ensures c in changes <==> exists k :: k in table && c in changesetOf(table[k].package)
      {
        FlattenMembers(lists, c);
        if exists k :: k in table && c in changesetOf(table[k].package) {
          var k :| k in table && c in changesetOf(table[k].package);
          var i :| 0 <= i < |order| && order[i] == k;
          assert c in lists[i];
        }
      }
    }
  }

  /**
   * Two packages with the same identity hash share one manager, whatever their
   * directories: the second request returns the manager created for the first.
   */
  method SameHashSharesManager(cm: ConfigManager, p: PackageLike, q: PackageLike)
    returns (first: PackageConfigsManager, second: PackageConfigsManager)
    requires cm.Valid() && p.identHash == q.identHash && p.identHash !in cm.table
    modifies cm
    ensures first == second && second.package == p
    ensures |cm.order| == |old(cm.order)| + 1
  {
    first := cm.GetManagerForPackageLike(p);
    second := cm.GetManagerForPackageLike(q);
  }
}
