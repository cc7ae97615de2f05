/** Names and link counts: what every directory lists, and how often each inode is named. */
module Ext2Links {
  import opened Ext2Layout
  import opened Ext2Map
  import opened Ext2Dir
  import opened Ext2Names

  /** Directory by directory, what each name stands for. */
  type Names = map<nat, map<Name, nat>>

  ghost function Dirs(l: Layout, d: Disk, ino: map<nat, Inode>): Names
  {
    map g | g in ino && ino[g].kind == Directory :: NameMap(Listing(l, d, ino[g]))
  }

  /** Where inode `n` is named. */
  ghost function Refs(ns: Names, n: nat): set<(nat, Name)>
  {
    set g, name | g in ns && name in ns[g] && ns[g][name] == n :: (g, name)
  }

  /** Every name stands for an inode there is, and what is named has as many links as names. */
  ghost predicate Referenced(ns: Names, all: map<nat, Inode>)
  {
    && (forall g, name :: g in ns && name in ns[g] ==> ns[g][name] in all)
    && (forall n :: n in all && all[n].kind != Directory && Refs(ns, n) != {} ==> all[n].links == |Refs(ns, n)|)
  }

  /** An inode that one more name may stand for. */
  ghost predicate Adopts(ns: Names, all: map<nat, Inode>, n: nat)
  {
    n in all && (all[n].kind != Directory ==> all[n].links == |Refs(ns, n)| + 1)
  }

  // ----- one name more, one name fewer -----

  function With(ns: Names, g: nat, name: Name, n: nat): Names
    requires g in ns
  {
    var listing: map<Name, nat> := ns[g][name := n]; ns[g := listing]
  }

  function Without(ns: Names, g: nat, name: Name): Names
    requires g in ns
  {
    ns[g := ns[g] - {name}]
  }

  lemma RefsAdded(ns: Names, g: nat, name: Name, n: nat, m: nat)
    requires g in ns && name !in ns[g]
    ensures var ns' := With(ns, g, name, n);
      Refs(ns', m) == if m == n then Refs(ns, m) + {(g, name)} else Refs(ns, m)
    ensures (g, name) !in Refs(ns, m)
  {}

  lemma NameAdded(ns: Names, all: map<nat, Inode>, g: nat, name: Name, n: nat)
    requires Referenced(ns, all) && g in ns && name !in ns[g] && Adopts(ns, all, n)
    ensures Referenced(With(ns, g, name, n), all)
  {
    var ns' := With(ns, g, name, n);
    forall m | m in all && all[m].kind != Directory && Refs(ns', m) != {}
      ensures all[m].links == |Refs(ns', m)|
    {
      RefsAdded(ns, g, name, n, m);
    }
  }

  lemma RefsRemoved(ns: Names, g: nat, name: Name, m: nat)
    requires g in ns && name in ns[g]
    ensures var ns' := Without(ns, g, name);
      Refs(ns', m) == if m == ns[g][name] then Refs(ns, m) - {(g, name)} else Refs(ns, m)
    ensures (g, name) in Refs(ns, ns[g][name])
  {}

  /** One link fewer, or gone with the last one. */
  function Fewer(all: map<nat, Inode>, n: nat): map<nat, Inode>
    requires n in all
  {
    if all[n].links <= 1 then all - {n} else all[n := all[n].(links := all[n].links - 1)]
  }

  /** The same, for one that may be elsewhere. */
  function FewerIn(all: map<nat, Inode>, n: nat): map<nat, Inode> { if n in all then Fewer(all, n) else all }

  lemma FewerInIs(all: map<nat, Inode>, n: nat)
    ensures n !in all ==> FewerIn(all, n) == all
    ensures n in all && all[n].links <= 1 ==> FewerIn(all, n) == all - {n}
    ensures n in all && all[n].links > 1 ==> FewerIn(all, n) == all[n := all[n].(links := all[n].links - 1)]
  {}

  /** Losing its last link, anything but a regular file keeps its blocks marked. */
  predicate Leaves(t: Inode) { t.kind == Other && t.links <= 1 }

  lemma LeavesIs(t: Inode)
    ensures Leaves(t) <==> t.kind == Other && t.links <= 1
  {}

  /** Removing a name and one link of what it named keeps every count true. */
  lemma NameRemoved(ns: Names, all: map<nat, Inode>, g: nat, name: Name)
    requires Referenced(ns, all) && g in ns && name in ns[g]
    requires ns[g][name] in all && all[ns[g][name]].kind != Directory
    ensures Referenced(Without(ns, g, name), Fewer(all, ns[g][name]))
  {
    var n, ns' := ns[g][name], Without(ns, g, name);
    var all' := Fewer(all, n);
    RefsRemoved(ns, g, name, n);
    assert |Refs(ns', n)| == |Refs(ns, n)| - 1;
    forall h, other | h in ns' && other in ns'[h]
      ensures ns'[h][other] in all'
    {
      if ns'[h][other] == n {
        assert (h, other) in Refs(ns', n);
      }
      assert ns[h][other] in all;
    }
    forall m | m in all' && all'[m].kind != Directory && Refs(ns', m) != {}
      ensures all'[m].links == |Refs(ns', m)|
    {
      RefsRemoved(ns, g, name, m);
    }
  }

  /** An inode nobody knew is named nowhere. */
  lemma Newcomer(ns: Names, all: map<nat, Inode>, i: Inode)
    requires Referenced(ns, all) && i.number !in all
    ensures Referenced(ns, all[i.number := i]) && Refs(ns, i.number) == {}
  {
    assert forall g, name :: g in ns && name in ns[g] ==> ns[g][name] != i.number;
  }

  /** Only kinds and link counts matter. */
  lemma SameLinks(ns: Names, all: map<nat, Inode>, all': map<nat, Inode>)
    requires Referenced(ns, all) && all'.Keys == all.Keys
    requires forall n :: n in all ==> all'[n].kind == all[n].kind && all'[n].links == all[n].links
    ensures Referenced(ns, all')
  {
    forall n | n in all' && all'[n].kind != Directory && Refs(ns, n) != {}
      ensures all'[n].links == |Refs(ns, n)|
    {
      assert n in all;
    }
  }

  // ----- what changes a listing -----

  lemma DirsAt(l: Layout, d: Disk, ino: map<nat, Inode>, g: nat)
    requires g in ino && ino[g].kind == Directory
    ensures g in Dirs(l, d, ino) && Dirs(l, d, ino)[g] == NameMap(Listing(l, d, ino[g]))
  {
    hide NameMap, Listing;
  }

  /** A listed name stands for an inode there is. */
  lemma NamedThere(l: Layout, d: Disk, ino: map<nat, Inode>, sealed: map<nat, Inode>, dir: Inode, name: Name)
    requires Referenced(Dirs(l, d, ino), ino + sealed) && dir.number in ino && ino[dir.number] == dir && dir.kind == Directory
    ensures var names := NameMap(Listing(l, d, dir)); name in names ==> names[name] in ino + sealed
  {
    hide NameMap, Listing, Refs;
    DirsAt(l, d, ino, dir.number);
  }

  /** Work on one file that is no directory leaves every listing as it was. */
  lemma DirsSame(l: Layout, d: Disk, d': Disk, ino: map<nat, Inode>, ino': map<nat, Inode>, f: nat)
    requires OthersSame(l, d, d', ino, ino', f) && ino'.Keys - {f} == ino.Keys - {f}
    requires f in ino ==> ino[f].kind != Directory
    requires f in ino' ==> ino'[f].kind != Directory
    ensures Dirs(l, d', ino') == Dirs(l, d, ino)
  {
    hide NameMap, SameFile;
    forall g | g in ino' && ino'[g].kind == Directory
      ensures g in ino && ino[g].kind == Directory && Listing(l, d', ino'[g]) == Listing(l, d, ino[g])
    {
      SameDir(l, d, d', ino[g], ino'[g]);
    }
    forall g | g in ino && ino[g].kind == Directory
      ensures g in ino' && ino'[g].kind == Directory
    {
      assert g in ino.Keys - {f};
    }
  }

  /** Work on one directory changes no other listing. */
  lemma DirsOne(l: Layout, d: Disk, d': Disk, ino: map<nat, Inode>, f: nat)
    requires OthersSame(l, d, d', ino, ino, f) && f in ino && ino[f].kind == Directory
    ensures Dirs(l, d', ino) == Dirs(l, d, ino)[f := NameMap(Listing(l, d', ino[f]))]
  {
    hide NameMap, SameFile;
    forall g | g in ino && ino[g].kind == Directory && g != f
      ensures Listing(l, d', ino[g]) == Listing(l, d, ino[g])
    {
      SameDir(l, d, d', ino[g], ino[g]);
    }
  }

  // ----- link counts over one call -----

  /** Work on one file that keeps its kind and its links keeps every count true. */
  lemma LinksKept(l: Layout, d: Disk, d': Disk, ino: map<nat, Inode>, ino': map<nat, Inode>, sealed: map<nat, Inode>, i: Inode)
    requires Referenced(Dirs(l, d, ino), ino + sealed) && OthersSame(l, d, d', ino, ino', i.number)
    requires i.number in ino && ino' == ino[i.number := i] && sealed.Keys !! ino.Keys
    requires i.kind == ino[i.number].kind != Directory && i.links == ino[i.number].links
    ensures Referenced(Dirs(l, d', ino'), ino' + sealed)
  {
    hide Referenced, OthersSame, Dirs;
    DirsSame(l, d, d', ino, ino', i.number);
    SameLinks(Dirs(l, d, ino), ino + sealed, ino' + sealed);
  }

  /** A new inode with one link is one that a name may stand for. */
  lemma LinksJoin(l: Layout, d: Disk, d': Disk, ino: map<nat, Inode>, sealed: map<nat, Inode>, i: Inode)
    requires Referenced(Dirs(l, d, ino), ino + sealed) && OthersSame(l, d, d', ino, ino[i.number := i], i.number)
    requires i.number !in ino && i.number !in sealed && i.kind == Regular && i.links == 1
    ensures var ino' := ino[i.number := i];
            Referenced(Dirs(l, d', ino'), ino' + sealed) && Adopts(Dirs(l, d', ino'), ino' + sealed, i.number)
  {
    hide Referenced, OthersSame, Dirs, Refs;
    var ino' := ino[i.number := i];
    DirsSame(l, d, d', ino, ino', i.number);
    Newcomer(Dirs(l, d, ino), ino + sealed, i);
    assert ino' + sealed == (ino + sealed)[i.number := i];
  }

  lemma LinksMore(l: Layout, d: Disk, d': Disk, ino: map<nat, Inode>, sealed: map<nat, Inode>, dir: Inode, name: Name, n: nat)
    requires Referenced(Dirs(l, d, ino), ino + sealed) && OthersSame(l, d, d', ino, ino, dir.number)
    requires dir.number in ino && ino[dir.number] == dir && dir.kind == Directory
    requires name !in NameMap(Listing(l, d, dir)) && Adopts(Dirs(l, d, ino), ino + sealed, n)
    requires NameMap(Listing(l, d', dir)) == NameMap(Listing(l, d, dir))[name := n]
    ensures Referenced(Dirs(l, d', ino), ino + sealed)
  {
    hide Referenced, OthersSame, Dirs, Adopts, NameMap;
    DirsAt(l, d, ino, dir.number);
    DirsOne(l, d, d', ino, dir.number);
    NameAdded(Dirs(l, d, ino), ino + sealed, dir.number, name, n);
  }

  /** A name taken out, and one link of what it named. */
  lemma LinksFewer(l: Layout, d: Disk, d1: Disk, d2: Disk, ino: map<nat, Inode>, ino': map<nat, Inode>,
                   sealed: map<nat, Inode>, sealed': map<nat, Inode>, dir: Inode, name: Name, n: nat)
    requires Referenced(Dirs(l, d, ino), ino + sealed) && sealed.Keys !! ino.Keys
    requires dir.number in ino && ino[dir.number] == dir && dir.kind == Directory
    requires name in NameMap(Listing(l, d, dir)) && NameMap(Listing(l, d, dir))[name] == n
    requires n in ino + sealed && (ino + sealed)[n].kind != Directory
    requires NameMap(Listing(l, d1, dir)) == NameMap(Listing(l, d, dir)) - {name}
    requires OthersSame(l, d, d1, ino, ino, dir.number) && OthersSame(l, d1, d2, ino, ino', n)
    requires ino' == FewerIn(ino, n) && sealed' == FewerIn(sealed, n)
    ensures Referenced(Dirs(l, d2, ino'), ino' + sealed')
  {
    hide Referenced, OthersSame, Dirs, NameMap;
    DirsAt(l, d, ino, dir.number);
    DirsOne(l, d, d1, ino, dir.number);
    DirsSame(l, d1, d2, ino, ino', n);
    NameRemoved(Dirs(l, d, ino), ino + sealed, dir.number, name);
    assert ino' + sealed' == Fewer(ino + sealed, n);
  }
}
