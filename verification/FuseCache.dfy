/**
 The inode cache of the FUSE tracer as it is in memory: inodes that point at
 each other through two mirrored maps, and an inode map over them.

 The ghost field `edges` is the dentry graph. `Valid()` says that both maps of
 every cached inode hold exactly that graph; each operation keeps it and makes
 the step of module FuseMachine.
 */
module FuseCache {
  import opened CInt
  import opened DentryGraph
  import opened FuseMachine
  import opened Options
  import opened PathText

  class Inode {
    var ino: Ino
    var ref: int
    var fds: set<nat>
    var parents: map<Key, Inode>
    var dentries: map<string, Inode>

    constructor (ino: Ino)
      ensures this.ino == ino && ref == 0 && fds == {} && parents == map[] && dentries == map[]
    {
      this.ino := ino;
      ref, fds, parents, dentries := 0, {}, map[], map[];
    }

    function Lookup(dname: string): (r: Inode?)
      reads this
    {
      if dname in dentries then dentries[dname] else null
    }
  }

  /** A name in a directory and the inode under it. */
  datatype Place = Place(parent: Inode, name: string, child: Inode)

  /** An inode whose names are removed, and what each of them reads as once it is freed. */
  datatype Cut = Cut(inode: Inode, freed: map<string, string>)

  ghost function EdgeAt(at: Place): Edge
    reads at.parent, at.child
  {
    Edge(at.parent.ino, at.name, at.child.ino)
  }

  class Cache {
    var root: Inode
    var inodeMap: map<Ino, Inode?>
    var basedir: string
    ghost var nodes: set<Inode>  // the inodes that exist
    ghost var edges: set<Edge>   // the dentry graph

    // ------------------------------------------------------- invariant

    predicate Cached(i: Ino)
      reads this`inodeMap
    {
      i in inodeMap && inodeMap[i] != null
    }

    ghost predicate SlotIsRight(i: Ino)
      reads this`inodeMap, this`nodes, nodes`ino
    {
      Cached(i) ==> inodeMap[i] in nodes && inodeMap[i].ino == i
    }

    ghost predicate IsIndexed(x: Inode)
      reads this`inodeMap, this`nodes, nodes`ino
    {
      x in nodes ==> x.ino in inodeMap && inodeMap[x.ino] == x
    }

    /** The inode map and the inodes that exist are one another's inverse; numbers are distinct. */
    ghost predicate Indexed()
      reads this`root, this`inodeMap, this`nodes, nodes`ino
    {
      && root in nodes && root.ino == ROOT_INO
      && (forall i {:trigger SlotIsRight(i)} :: i in inodeMap ==> SlotIsRight(i))
      && (forall x {:trigger IsIndexed(x)} :: x in nodes ==> IsIndexed(x))
    }

    /** The names in a directory lead along edges of the graph. */
    ghost predicate DentriesAreEdges(x: Inode)
      reads this`nodes, this`edges, nodes`ino, nodes`dentries
    {
      x in nodes ==>
        forall n :: n in x.dentries ==> x.dentries[n] in nodes && Edge(x.ino, n, x.dentries[n].ino) in edges
    }

    /** The directory of the edge holds it. */
    ghost predicate DentryIsHeld(e: Edge)
      reads this`inodeMap, this`nodes, nodes`ino, nodes`dentries
    {
      && Cached(e.parent) && Cached(e.child) && SlotIsRight(e.parent) && SlotIsRight(e.child)
      && e.name in inodeMap[e.parent].dentries && inodeMap[e.parent].dentries[e.name] == inodeMap[e.child]
    }

    /** The keys of `parents` come from edges of the graph. */
    ghost predicate ParentsAreEdges(x: Inode)
      reads this`nodes, this`edges, nodes`ino, nodes`parents
    {
      x in nodes ==>
        forall k :: k in x.parents ==>
          x.parents[k] in nodes && x.parents[k].ino == k.1 && Edge(k.1, k.0, x.ino) in edges
    }

    /** The child of the edge holds it. */
    ghost predicate ParentIsHeld(e: Edge)
      reads this`inodeMap, this`nodes, nodes`ino, nodes`parents
    {
      && Cached(e.child) && SlotIsRight(e.child)
      && (e.name, e.parent) in inodeMap[e.child].parents
    }

    /** The `dentries` maps hold exactly the graph. */
    ghost predicate DentriesHold()
      reads this`nodes, this`edges, this`inodeMap, nodes`ino, nodes`dentries
    {
      && (forall x {:trigger DentriesAreEdges(x)} :: x in nodes ==> DentriesAreEdges(x))
      && (forall e {:trigger DentryIsHeld(e)} :: e in edges ==> DentryIsHeld(e))
    }

    /** The `parents` maps hold exactly the graph. */
    ghost predicate ParentsHold()
      reads this`nodes, this`edges, this`inodeMap, nodes`ino, nodes`parents
    {
      && (forall x {:trigger ParentsAreEdges(x)} :: x in nodes ==> ParentsAreEdges(x))
      && (forall e {:trigger ParentIsHeld(e)} :: e in edges ==> ParentIsHeld(e))
    }

    /** Everything but the `parents` maps is consistent. */
    ghost predicate ValidDown()
      reads this, nodes
    {
      Indexed() && DentriesHold()
    }

    ghost predicate Valid()
      reads this, nodes
    {
      ValidDown() && ParentsHold()
    }

    /** The mirror between the two maps, on the pointers themselves. */
    ghost predicate Mirrored()
      reads this, nodes
    {
      forall p, x, n :: p in nodes && x in nodes ==>
        ((n in p.dentries && p.dentries[n] == x) <==>
         ((n, p.ino) in x.parents && x.parents[(n, p.ino)] == p))
    }

    lemma ValidIsMirrored()
      requires Valid()
      ensures Mirrored()
    {
      forall p, x, n | p in nodes && x in nodes
        ensures (n in p.dentries && p.dentries[n] == x) <==>
                ((n, p.ino) in x.parents && x.parents[(n, p.ino)] == p)
      {
        var e := Edge(p.ino, n, x.ino);
        assert DentriesAreEdges(p) && ParentsAreEdges(x) && IsIndexed(p) && IsIndexed(x);
        if n in p.dentries && p.dentries[n] == x {
          assert ParentIsHeld(e) && IsIndexed(x.parents[(n, p.ino)]);
        }
        if (n, p.ino) in x.parents && x.parents[(n, p.ino)] == p {
          assert DentryIsHeld(e);
        }
      }
    }

    /** A name is in a directory exactly when the graph has an edge for it. */
    lemma NameIsEdge(p: Inode, n: string)
      requires ValidDown() && p in nodes
      ensures n in p.dentries <==> exists e :: e in edges && e.parent == p.ino && e.name == n
      ensures n in p.dentries ==> p.dentries[n] in nodes && Edge(p.ino, n, p.dentries[n].ino) in edges
    {
      assert DentriesAreEdges(p) && IsIndexed(p);
      forall e | e in edges && e.parent == p.ino && e.name == n ensures n in p.dentries {
        assert DentryIsHeld(e);
      }
    }

    lemma ParentIsEdge(x: Inode, k: Key)
      requires Valid() && x in nodes && k in x.parents
      ensures x.parents[k] in nodes && x.parents[k].ino == k.1
      ensures Edge(k.1, k.0, x.ino) in edges
      ensures k.0 in x.parents[k].dentries && x.parents[k].dentries[k.0] == x
    {
      assert ParentsAreEdges(x) && IsIndexed(x) && IsIndexed(x.parents[k]);
      assert DentryIsHeld(Edge(k.1, k.0, x.ino));
    }

    /** `parents` is keyed by exactly the edges into the inode. */
    lemma ParentKeysHeld(x: Inode)
      requires Valid() && x in nodes
      ensures x.parents.Keys == ParentKeys(edges, x.ino)
    {
      assert ParentsAreEdges(x) && IsIndexed(x);
      forall k: Key ensures k in x.parents.Keys <==> k in ParentKeys(edges, x.ino) {
        ParentKeyIsEdge(edges, x.ino, k);
        if Edge(k.1, k.0, x.ino) in edges {
          assert ParentIsHeld(Edge(k.1, k.0, x.ino));
        }
      }
    }

    ghost function Refs(): map<Ino, int>
      reads this, nodes
      requires Indexed()
    {
      map i | i in inodeMap && inodeMap[i] != null :: assert SlotIsRight(i); inodeMap[i].ref
    }

    ghost function Holes(): set<Ino>
      reads this
    {
      set i | i in inodeMap && inodeMap[i] == null
    }

    /** The cache as a state of FuseMachine. */
    ghost function View(): State
      reads this, nodes
      requires Indexed()
    {
      State(edges, Refs(), Holes())
    }

    lemma ViewWellFormed()
      requires Valid()
      ensures WellFormed(View())
    {
      assert IsIndexed(root);
      forall e, f | e in edges && f in edges && e.parent == f.parent && e.name == f.name ensures e == f {
        assert DentryIsHeld(e) && DentryIsHeld(f);
      }
      forall e | e in edges ensures e.parent in Refs() && e.child in Refs() {
        assert DentryIsHeld(e);
      }
    }

    // ---------------------------------------------------- graph updates

    constructor (basedir: string)
      ensures Valid() && fresh(nodes) && View() == Initial()
      ensures this.basedir == basedir
    {
      var r := new Inode(ROOT_INO);
      r.ref := r.ref + 1;
      root, inodeMap, nodes, edges := r, map[ROOT_INO := r], {r}, {};
      this.basedir := basedir;
    }

    /** Only the graph, `dentries` and `parents` have changed. */
    twostate predicate SameInodes()
      reads this, nodes
    {
      && root == old(root) && nodes == old(nodes) && inodeMap == old(inodeMap)
      && forall x :: x in nodes ==> x.ino == old(x.ino)
    }

    twostate lemma DentriesAfterRemoval(at: Place)
      requires old(ValidDown()) && SameInodes() && at.parent in nodes && at.child in nodes
      requires at.name in old(at.parent.dentries) && old(at.parent.dentries)[at.name] == at.child
      requires edges == old(edges) - {EdgeAt(at)}
      requires at.parent.dentries == old(at.parent.dentries) - {at.name}
      requires forall x :: x in nodes && x != at.parent ==> x.dentries == old(x.dentries)
      ensures DentriesHold()
      ensures edges == WithoutName(old(edges), at.parent.ino, at.name)
    {
      assert old(DentriesAreEdges(at.parent)) && old(DentryIsHeld(EdgeAt(at))) && old(IsIndexed(at.parent));
      forall x | x in nodes ensures DentriesAreEdges(x) {
        assert old(DentriesAreEdges(x)) && old(IsIndexed(x));
      }
      forall e | e in old(edges)
        ensures e != EdgeAt(at) ==> DentryIsHeld(e)
        ensures e.parent == at.parent.ino && e.name == at.name ==> e == EdgeAt(at)
      {
        assert old(DentryIsHeld(e));
      }
    }

    twostate lemma ParentsAfterRemoval(at: Place)
      requires old(Valid()) && SameInodes() && at.parent in nodes && at.child in nodes
      requires edges == old(edges) - {EdgeAt(at)}
      requires at.child.parents == old(at.child.parents) - {(at.name, at.parent.ino)}
      requires forall x :: x in nodes && x != at.child ==> x.parents == old(x.parents)
      ensures ParentsHold()
    {
      assert old(IsIndexed(at.child));
      forall x | x in nodes ensures ParentsAreEdges(x) {
        assert old(ParentsAreEdges(x)) && old(IsIndexed(x));
      }
      forall e | e in edges ensures ParentIsHeld(e) {
        assert old(ParentIsHeld(e));
      }
    }

    twostate lemma DentriesAfterAddition(at: Place)
      requires old(ValidDown()) && SameInodes() && at.parent in nodes && at.child in nodes
      requires at.name !in old(at.parent.dentries)
      requires edges == old(edges) + {EdgeAt(at)}
      requires at.parent.dentries == old(at.parent.dentries)[at.name := at.child]
      requires forall x :: x in nodes && x != at.parent ==> x.dentries == old(x.dentries)
      ensures DentriesHold()
    {
      assert old(IsIndexed(at.parent)) && old(IsIndexed(at.child));
      forall x | x in nodes ensures DentriesAreEdges(x) {
        assert old(DentriesAreEdges(x));
      }
      forall e | e in edges ensures DentryIsHeld(e) {
        assert e in old(edges) ==> old(DentryIsHeld(e));
      }
    }

    twostate lemma ParentsAfterAddition(at: Place)
      requires old(Valid()) && SameInodes() && at.parent in nodes && at.child in nodes
      requires edges == old(edges) + {EdgeAt(at)}
      requires at.child.parents == old(at.child.parents)[(at.name, at.parent.ino) := at.parent]
      requires forall x :: x in nodes && x != at.child ==> x.parents == old(x.parents)
      ensures ParentsHold()
    {
      assert old(IsIndexed(at.child));
      forall x | x in nodes ensures ParentsAreEdges(x) {
        assert old(ParentsAreEdges(x));
      }
      forall e | e in edges ensures ParentIsHeld(e) {
        assert e in old(edges) ==> old(ParentIsHeld(e));
      }
    }

    twostate lemma StillIndexed()
      requires old(Indexed()) && SameInodes()
      ensures Indexed()
    {
      forall i | i in inodeMap ensures SlotIsRight(i) {
        assert old(SlotIsRight(i));
      }
      forall x | x in nodes ensures IsIndexed(x) {
        assert old(IsIndexed(x));
      }
    }

    /** The child still holds the key of a name that is gone. */
    twostate lemma ParentsAfterWrongKey(at: Place)
      requires old(Valid()) && SameInodes() && at.parent in nodes && at.child in nodes
      requires EdgeAt(at) in old(edges) && EdgeAt(at) !in edges
      requires at.name !in at.parent.dentries
      requires (at.name, at.parent.ino) in old(at.child.parents) ==>
        && (at.name, at.parent.ino) in at.child.parents
        && at.child.parents[(at.name, at.parent.ino)] == old(at.child.parents[(at.name, at.parent.ino)])
      ensures !ParentsHold() && !Mirrored()
    {
      assert old(IsIndexed(at.child)) && old(IsIndexed(at.parent));
      assert old(ParentIsHeld(EdgeAt(at))) && old(ParentsAreEdges(at.child));
      assert old(IsIndexed(at.child.parents[(at.name, at.parent.ino)]));
      assert !ParentsAreEdges(at.child);
    }

    /**
     remove_dentry. It reads its name twice: `reread` is what it reads after
     the entry is erased, which is `dname` again when the caller owns the string.
     Both maps lose the edge exactly when the two are the same.
     */
    method RemoveDentry(pin: Inode, dname: string, reread: string)
      requires ValidDown() && pin in nodes && dname in pin.dentries
      modifies this`edges, nodes`dentries, nodes`parents
      ensures ValidDown()
      ensures edges == old(edges) - {Edge(pin.ino, dname, old(pin.dentries[dname].ino))}
      ensures edges == WithoutName(old(edges), pin.ino, dname)
      ensures pin.dentries == old(pin.dentries) - {dname}
      ensures forall x :: x in nodes && x != pin ==> x.dentries == old(x.dentries)
      ensures forall x :: x in nodes ==>
        x.parents == if x == old(pin.dentries[dname]) then old(x.parents) - {(reread, pin.ino)} else old(x.parents)
      ensures old(Valid()) ==> (Valid() <==> reread == dname) && (Mirrored() <==> reread == dname)
    {
      var inode := pin.Lookup(dname);
      NameIsEdge(pin, dname);
      ghost var at := Place(pin, dname, inode);
      pin.dentries := pin.dentries - {dname};
      inode.parents := inode.parents - {(reread, pin.ino)};
      edges := edges - {EdgeAt(at)};
      StillIndexed();
      DentriesAfterRemoval(at);
      if old(Valid()) {
        if reread == dname {
          ParentsAfterRemoval(at);
          ValidIsMirrored();
        } else {
          ParentsAfterWrongKey(at);
        }
      }
    }

    /** remove_dentry for a caller that owns its string. */
    method DropDentry(pin: Inode, dname: string)
      requires Valid() && pin in nodes && dname in pin.dentries
      modifies this`edges, nodes`dentries, nodes`parents
      ensures Valid() && edges == WithoutName(old(edges), pin.ino, dname)
      ensures edges == old(edges) - {Edge(pin.ino, dname, old(pin.dentries[dname].ino))}
      ensures pin.dentries == old(pin.dentries) - {dname}
      ensures forall x :: x in nodes && x != pin ==> x.dentries == old(x.dentries)
    {
      NameIsEdge(pin, dname);
      RemoveDentry(pin, dname, dname);
    }

    /** The two assignments of add_dentry, on a name that is free. */
    method PutDentry(parent: Inode, dname: string, inode: Inode)
      requires ValidDown() && parent in nodes && inode in nodes && dname !in parent.dentries
      modifies this`edges, nodes`dentries, nodes`parents
      ensures ValidDown() && (old(Valid()) ==> Valid())
      ensures edges == old(edges) + {Edge(parent.ino, dname, inode.ino)}
      ensures forall x :: x in nodes && x != inode ==> x.parents == old(x.parents)
    {
      parent.dentries := parent.dentries[dname := inode];
      inode.parents := inode.parents[(dname, parent.ino) := parent];
      ghost var at := Place(parent, dname, inode);
      edges := edges + {EdgeAt(at)};
      StillIndexed();
      DentriesAfterAddition(at);
      if old(Valid()) {
        ParentsAfterAddition(at);
      }
    }

    /** The inode is still a parent of `x` for the name, whatever its own names say. */
    ghost predicate Keeps(x: Inode, n: string, inode: Inode)
      reads x`parents, inode`ino
    {
      (n, inode.ino) in x.parents && x.parents[(n, inode.ino)] == inode
    }

    method AddDentry(parent: Inode, dname: string, inode: Inode)
      requires ValidDown() && parent in nodes && inode in nodes
      modifies this`edges, nodes`dentries, nodes`parents
      ensures ValidDown() && (old(Valid()) ==> Valid())
      ensures edges == FuseMachine.AddDentry(old(edges), parent.ino, dname, inode.ino)
      ensures old(inode.dentries == map[] && KeptBySome(inode)) ==> KeptBySome(inode)
    {
      assert IsIndexed(parent) && IsIndexed(inode);
      if dname in parent.dentries {
        RemoveDentry(parent, dname, dname);
      }
      NameIsEdge(parent, dname);
      PutDentry(parent, dname, inode);
      if old(inode.dentries == map[] && KeptBySome(inode)) {
        ghost var x: Inode, n: string :| x in nodes && x != inode && old(Keeps(x, n, inode));
        assert Keeps(x, n, inode);
      }
    }

    /** The least key of `parents`, where `begin()` points. */
    method FirstParent(inode: Inode) returns (key: Key)
      requires inode.parents != map[]
      ensures key in inode.parents && key == First(inode.parents.Keys)
    {
      assert inode.parents.Keys != {};
      FirstExists(inode.parents.Keys);
      key :| key in inode.parents.Keys && IsFirst(inode.parents.Keys, key);
      FirstUnique(inode.parents.Keys, key, First(inode.parents.Keys));
    }

    /** The last loop of unlink_inode: stray descriptors are closed one by one. */
    method CloseAll(inode: Inode) returns (closed: set<nat>)
      modifies inode`fds
      ensures inode.fds == {} && closed == old(inode.fds)
    {
      closed := {};
      var open := inode.fds;
      while open != {}
        invariant inode.fds == open && closed + open == old(inode.fds)
        decreases open
      {
        var fd :| fd in open;
        closed, open := closed + {fd}, open - {fd};
        inode.fds := open;
      }
    }

    /** One of the names has had `k` erased from the `parents` of `x`. */
    ghost predicate Erased(D: map<string, Inode>, names: set<string>, freed: map<string, string>,
                           x: Inode, k: Key, i: Ino) {
      exists n :: n in names && n in D && D[n] == x && k == (Reread(freed, n), i)
    }

    /** What is left of `parents` after the names have been removed. */
    ghost predicate Leaves(x: Inode, was: map<Key, Inode>, D: map<string, Inode>, names: set<string>,
                           freed: map<string, string>, i: Ino)
      reads x`parents
    {
      && (forall k: Key :: k in x.parents <==> k in was && !Erased(D, names, freed, x, k, i))
      && (forall k: Key :: k in x.parents ==> x.parents[k] == was[k])
    }

    lemma LeavesStep(x: Inode, before: map<Key, Inode>, was: map<Key, Inode>, D: map<string, Inode>, names: set<string>,
                     freed: map<string, string>, i: Ino, n: string)
      requires forall k: Key :: k in before <==> k in was && !Erased(D, names, freed, x, k, i)
      requires forall k: Key :: k in before ==> before[k] == was[k]
      requires n in D && x.parents == if x == D[n] then before - {(Reread(freed, n), i)} else before
      ensures Leaves(x, was, D, names + {n}, freed, i)
    {
      forall k: Key ensures Erased(D, names + {n}, freed, x, k, i) <==>
                            Erased(D, names, freed, x, k, i) || (D[n] == x && k == (Reread(freed, n), i))
      {
      }
    }

    /** Every name of the inode has been removed, and each has erased one key from the `parents` of its child. */
    twostate predicate CutOff(cut: Cut)
      reads this, nodes
    {
      && old(Valid()) && SameInodes() && ValidDown() && cut.inode in nodes
      && edges == WithoutInode(old(edges), cut.inode.ino)
      && (forall e :: e in old(edges) ==> e.child != cut.inode.ino)
      && forall x :: x in nodes ==>
           Leaves(x, old(x.parents), old(cut.inode.dentries), old(cut.inode.dentries).Keys, cut.freed, cut.inode.ino)
    }

    /** Each name of the inode has erased what it reads as. */
    twostate lemma NameErased(at: (Cut, Edge))
      requires CutOff(at.0) && at.1 in old(edges) && at.1.parent == at.0.inode.ino
      ensures Cached(at.1.child) && at.1.name in old(at.0.inode.dentries)
      ensures old(at.0.inode.dentries)[at.1.name] == inodeMap[at.1.child]
    {
      assert old(DentryIsHeld(at.1)) && old(IsIndexed(at.0.inode));
    }

    /** A child of the inode holds none of its keys any more when they survive. */
    twostate lemma KeyIsGone(at: (Cut, Inode, Key))
      requires CutOff(at.0) && KeysSurvive(old(edges), at.0.inode.ino, at.0.freed)
      requires at.1 in nodes && at.2 in old(at.1.parents) && at.2.1 == at.0.inode.ino
      ensures at.2 !in at.1.parents
    {
      var (cut, x, k) := at;
      var i, D := cut.inode.ino, old(cut.inode.dentries);
      assert old(ParentsAreEdges(x)) && old(IsIndexed(x));
      assert Edge(i, k.0, x.ino) in old(edges);
      assert KeyIsRead(old(edges), Edge(i, k.0, x.ino), cut.freed);
      var f :| f in old(edges) && f.parent == i && f.child == x.ino && Reread(cut.freed, f.name) == k.0;
      NameErased((cut, f));
      assert Leaves(x, old(x.parents), D, D.Keys, cut.freed, i);
      assert Erased(D, D.Keys, cut.freed, x, k, i);
    }

    twostate lemma ParentsAfterCut(cut: Cut)
      requires CutOff(cut) && KeysSurvive(old(edges), cut.inode.ino, cut.freed)
      ensures ParentsHold()
    {
      var D := old(cut.inode.dentries);
      forall x | x in nodes ensures ParentsAreEdges(x) {
        assert old(ParentsAreEdges(x));
        assert Leaves(x, old(x.parents), D, D.Keys, cut.freed, cut.inode.ino);
        forall k | k in x.parents ensures k.1 != cut.inode.ino {
          if k.1 == cut.inode.ino { KeyIsGone((cut, x, k)); }
        }
      }
      forall e | e in edges ensures ParentIsHeld(e) {
        assert old(ParentIsHeld(e));
        var x := inodeMap[e.child];
        assert Leaves(x, old(x.parents), D, D.Keys, cut.freed, cut.inode.ino);
      }
    }

    twostate lemma KeyIsLost(at: (Cut, Edge))
      requires CutOff(at.0) && at.1 in old(edges) && at.1.parent == at.0.inode.ino
      requires !KeyIsRead(old(edges), at.1, at.0.freed)
      ensures KeptBySome(at.0.inode)
    {
      var (cut, e) := at;
      var i, D := cut.inode.ino, old(cut.inode.dentries);
      assert old(ParentIsHeld(e)) && old(IsIndexed(cut.inode)) && old(DentriesAreEdges(cut.inode));
      var x: Inode := inodeMap[e.child];
      assert old(ParentsAreEdges(x)) && old(IsIndexed(x.parents[(e.name, i)])) && old(IsIndexed(x));
      assert Leaves(x, old(x.parents), D, D.Keys, cut.freed, i);
      assert !Erased(D, D.Keys, cut.freed, x, (e.name, i), i);
      assert Keeps(x, e.name, cut.inode);
    }

    /** The children of an inode that is cut off let go of it exactly when its keys survive. */
    twostate lemma ParentsHoldIff(cut: Cut)
      requires CutOff(cut)
      ensures ParentsHold() <==> KeysSurvive(old(edges), cut.inode.ino, cut.freed)
      ensures !KeysSurvive(old(edges), cut.inode.ino, cut.freed) ==> KeptBySome(cut.inode)
    {
      if KeysSurvive(old(edges), cut.inode.ino, cut.freed) {
        ParentsAfterCut(cut);
      } else {
        var e :| && e in old(edges) && e.parent == cut.inode.ino && e.child != cut.inode.ino
                 && !KeyIsRead(old(edges), e, cut.freed);
        KeyIsLost((cut, e));
        KeptIsWrong(cut.inode);
      }
    }

    /** Some other inode still has this one as a parent. */
    ghost predicate KeptBySome(inode: Inode)
      reads this`nodes, nodes`parents, inode`ino
    {
      exists x, n :: x in nodes && x != inode && Keeps(x, n, inode)
    }

    /** A child cannot keep a parent that has no edge to another inode. */
    lemma KeptIsWrong(inode: Inode)
      requires Indexed() && inode in nodes && KeptBySome(inode)
      requires forall e :: e in edges && e.parent == inode.ino ==> e.child == inode.ino
      ensures !ParentsHold()
    {
      var x: Inode, n: string :| x in nodes && x != inode && Keeps(x, n, inode);
      assert IsIndexed(x) && IsIndexed(inode);
      assert !ParentsAreEdges(x);
    }

    /** The first loop of unlink_inode, which copies each name before it removes it. */
    method UnlinkParents(inode: Inode)
      requires Valid() && inode in nodes
      modifies this`edges, nodes`dentries, nodes`parents
      ensures Valid() && inode.parents == map[]
      ensures edges == set e | e in old(edges) && e.child != inode.ino
    {
      ghost var i := inode.ino;
      while inode.parents != map[]
        invariant Valid() && edges <= old(edges)
        invariant forall e :: e in old(edges) && e.child != i ==> e in edges
        decreases edges
        modifies this`edges, nodes`dentries, nodes`parents
      {
        var key := FirstParent(inode);
        ParentIsEdge(inode, key);
        var dname := key.0;
        DropDentry(inode.parents[key], dname);
      }
      forall e | e in edges ensures e.child != i {
        if e.child == i { ParentKeysHeld(inode); ParentKeyIsEdge(edges, i, (e.name, e.parent)); }
      }
    }

    /** One turn of the second loop of unlink_inode. */
    method EraseName(inode: Inode, dname: string, reread: string)
      requires ValidDown() && inode in nodes && dname in inode.dentries
      modifies this`edges, nodes`dentries, nodes`parents
      ensures ValidDown() && edges < old(edges) && inode.dentries == old(inode.dentries) - {dname}
      ensures forall e :: e in old(edges) && e.parent != inode.ino ==> e in edges
      ensures forall x :: x in nodes ==>
        x.parents == if x == old(inode.dentries)[dname] then old(x.parents) - {(reread, inode.ino)} else old(x.parents)
    {
      NameIsEdge(inode, dname);
      RemoveDentry(inode, dname, reread);
    }

    /** The second loop of unlink_inode, which passes the key of the very entry it erases. */
    method UnlinkChildren(inode: Inode, freed: map<string, string>)
      requires Valid() && inode in nodes && forall e :: e in edges ==> e.child != inode.ino
      modifies this`edges, nodes`dentries, nodes`parents
      ensures inode.dentries == map[] && CutOff(Cut(inode, freed))
    {
      ghost var i, D, names := inode.ino, inode.dentries, {};
      while inode.dentries != map[]
        invariant ValidDown() && edges <= old(edges)
        invariant forall e :: e in old(edges) && e.parent != i ==> e in edges
        invariant names <= D.Keys && inode.dentries == D - names
        invariant forall x :: x in nodes ==> Leaves(x, old(x.parents), D, names, freed, i)
        decreases edges
        modifies this`edges, nodes`dentries, nodes`parents
      {
        assert inode.dentries.Keys != {};
        var dname :| dname in inode.dentries.Keys;
        label turn:
        EraseName(inode, dname, Reread(freed, dname));
        forall x | x in nodes ensures Leaves(x, old(x.parents), D, names + {dname}, freed, i) {
          LeavesStep(x, old@turn(x.parents), old(x.parents), D, names, freed, i, dname);
        }
        names := names + {dname};
      }
      NoNamesNoEdges(inode);
      AllNames(D, names);
    }

    lemma NoNamesNoEdges(inode: Inode)
      requires ValidDown() && inode in nodes && inode.dentries == map[]
      ensures forall e :: e in edges ==> e.parent != inode.ino
    {
      forall e | e in edges ensures e.parent != inode.ino {
        NameIsEdge(inode, e.name);
        assert DentryIsHeld(e) && IsIndexed(inode);
      }
    }

    lemma AllNames(D: map<string, Inode>, names: set<string>)
      requires names <= D.Keys && D - names == map[]
      ensures names == D.Keys
    {
      assert forall n :: n in D && n !in names ==> n in D - names;
    }

    /** Both loops. */
    method CutInode(inode: Inode, freed: map<string, string>)
      requires Valid() && inode in nodes
      modifies this`edges, nodes`dentries, nodes`parents
      ensures ValidDown() && inode.parents == map[] && inode.dentries == map[]
      ensures edges == WithoutInode(old(edges), inode.ino)
      ensures Valid() <==> KeysSurvive(old(edges), inode.ino, freed)
      ensures !KeysSurvive(old(edges), inode.ino, freed) ==> KeptBySome(inode)
    {
      UnlinkParents(inode);
      KeysSurviveWithoutParents(old(edges), edges, inode.ino, freed);
      label alone:
      UnlinkChildren(inode, freed);
      ParentsHoldIff@alone(Cut(inode, freed));
    }

    /** unlink_inode ends on any graph, and remove_dentry's own assertion holds on every turn of both loops. */
    method UnlinkInode(inode: Inode, freed: map<string, string>) returns (closed: set<nat>)
      requires Valid() && inode in nodes
      modifies this`edges, nodes`dentries, nodes`parents, inode`fds
      ensures ValidDown()
      ensures edges == WithoutInode(old(edges), inode.ino)
      ensures inode.parents == map[] && inode.dentries == map[]
      ensures inode.fds == {} && closed == old(inode.fds)
      ensures Valid() <==> KeysSurvive(old(edges), inode.ino, freed)
      ensures !KeysSurvive(old(edges), inode.ino, freed) ==> KeptBySome(inode)
    {
      CutInode(inode, freed);
      label cut:
      closed := CloseAll(inode);
      StillValid@cut();
    }

    /**
     remove_inode. No name and no number leads to the deleted inode; no child
     keeps it as a parent exactly when its keys survive.
     */
    method RemoveInode(inode: Inode, freed: map<string, string>)
      requires Valid() && inode in nodes && inode != root
      modifies this`inodeMap, this`nodes, this`edges, nodes`dentries, nodes`parents, nodes`fds
      ensures ValidDown()
      ensures nodes == old(nodes) - {inode}
      ensures inodeMap == old(inodeMap) - {inode.ino}
      ensures edges == WithoutInode(old(edges), inode.ino)
      ensures forall x, n :: x in nodes && n in x.dentries ==> x.dentries[n] != inode
      ensures forall i :: i in inodeMap ==> inodeMap[i] != inode
      ensures Valid() <==> KeysSurvive(old(edges), inode.ino, freed)
      ensures (forall x, k :: x in nodes && k in x.parents ==> x.parents[k] != inode) <==>
              KeysSurvive(old(edges), inode.ino, freed)
    {
      var _ := UnlinkInode(inode, freed);
      ghost var x: Inode, n: string;
      if !KeysSurvive(old(edges), inode.ino, freed) {
        x, n :| x in nodes && x != inode && Keeps(x, n, inode);
      } else {
        x, n := root, "";
      }
      label unlinked:
      inodeMap := inodeMap - {inode.ino};
      nodes := nodes - {inode};
      StillValidWithout@unlinked(inode);
      if !KeysSurvive(old(edges), inode.ino, freed) {
        assert x.parents[(n, inode.ino)] == inode && inode !in nodes;
        assert !ParentsAreEdges(x);
      }
    }

    twostate lemma StillValidWithout(inode: Inode)
      requires old(ValidDown()) && inode in old(nodes) && inode != root && inode.ino == old(inode.ino)
      requires forall e :: e in edges ==> e.parent != inode.ino && e.child != inode.ino
      requires root == old(root) && edges == old(edges)
      requires inodeMap == old(inodeMap) - {inode.ino} && nodes == old(nodes) - {inode}
      requires forall x :: x in nodes ==>
        x.ino == old(x.ino) && x.dentries == old(x.dentries) && x.parents == old(x.parents)
      ensures ValidDown()
      ensures forall x, n :: x in nodes && n in x.dentries ==> x.dentries[n] != inode
      ensures forall i :: i in inodeMap ==> inodeMap[i] != inode
      ensures old(ParentsHold()) ==>
        ParentsHold() && forall x, k :: x in nodes && k in x.parents ==> x.parents[k] != inode
    {
      assert old(IsIndexed(inode)) && old(IsIndexed(root));
      forall i | i in inodeMap ensures SlotIsRight(i) && inodeMap[i] != inode {
        assert old(SlotIsRight(i));
      }
      forall x | x in nodes ensures IsIndexed(x) && DentriesAreEdges(x) {
        assert old(IsIndexed(x)) && old(DentriesAreEdges(x));
      }
      forall e | e in edges ensures DentryIsHeld(e) {
        assert old(DentryIsHeld(e));
      }
      forall x, n | x in nodes && n in x.dentries ensures x.dentries[n] != inode {
        assert DentriesAreEdges(x);
      }
      if old(ParentsHold()) {
        ParentsHoldWithout(inode);
      }
    }

    twostate lemma ParentsHoldWithout(inode: Inode)
      requires old(Valid()) && inode in old(nodes) && inode.ino == old(inode.ino) && Indexed()
      requires forall e :: e in edges ==> e.parent != inode.ino && e.child != inode.ino
      requires edges == old(edges)
      requires inodeMap == old(inodeMap) - {inode.ino} && nodes == old(nodes) - {inode}
      requires forall x :: x in nodes ==> x.ino == old(x.ino) && x.parents == old(x.parents)
      ensures ParentsHold() && forall x, k :: x in nodes && k in x.parents ==> x.parents[k] != inode
    {
      assert old(IsIndexed(inode));
      forall x | x in nodes ensures ParentsAreEdges(x) {
        assert old(ParentsAreEdges(x)) && old(IsIndexed(x));
      }
      forall e | e in edges ensures ParentIsHeld(e) {
        assert old(ParentIsHeld(e)) && SlotIsRight(e.child);
      }
      forall x, k | x in nodes && k in x.parents ensures x.parents[k] != inode {
        assert ParentsAreEdges(x);
      }
    }

    // ------------------------------------------------------------ paths

    /** Following names through `Inode::lookup`. */
    ghost function Follow(x: Inode, names: seq<string>): Inode?
      reads this, nodes
      requires Valid() && x in nodes
      decreases |names|
    {
      if names == [] then x
      else if names[0] !in x.dentries then null
      else
        assert DentriesAreEdges(x);
        Follow(x.dentries[names[0]], names[1..])
    }

    lemma {:induction false} FollowIsWalk(x: Inode, names: seq<string>, y: Inode)
      requires Valid() && x in nodes && y in nodes
      requires Walk(edges, x.ino, names) == Some(y.ino)
      ensures Follow(x, names) == y
      decreases |names|
    {
      assert IsIndexed(x) && IsIndexed(y);
      if names != [] {
        NameIsEdge(x, names[0]);
        var e := Edge(x.ino, names[0], Find(edges, x.ino, names[0]).value);
        assert DentryIsHeld(e);
        FollowIsWalk(x.dentries[names[0]], names[1..], y);
      }
    }

    /** The recursion ends on an acyclic cache, and a path it produces leads from the root back to the inode. */
    method MakeInodePath(inode: Inode) returns (ok: bool, buf: string)
      requires Valid() && Acyclic(edges) && inode in nodes
      ensures ok <==> Attached(edges, inode.ino)
      ensures ok <==> PathOf(edges, inode.ino).Some?
      ensures ok ==> buf == Render(basedir, PathOf(edges, inode.ino).value)
      ensures ok ==> Follow(root, PathOf(edges, inode.ino).value) == inode
      decreases Above(edges, inode.ino)
    {
      ParentKeysHeld(inode);
      assert IsIndexed(inode) && IsIndexed(root);
      PathFailsWhenDetached(edges, inode.ino);
      if inode.parents != map[] {
        var key := FirstParent(inode);
        ParentIsEdge(inode, key);
        AboveShrinks(edges, Edge(key.1, key.0, inode.ino));
        ok, buf := MakeInodePath(inode.parents[key]);
        if !ok {
          return;
        }
        buf := buf + "/" + key.0;
        ghost var names := PathOf(edges, key.1).value;
        assert (names + [key.0])[..|names|] == names;
      } else {
        if inode != root {
          return false, "";
        }
        ok, buf := true, basedir + "/";
      }
      ViewWellFormed();
      PathWalksBack(edges, inode.ino);
      FollowIsWalk(root, PathOf(edges, inode.ino).value, inode);
    }

    // ---------------------------------------------------------- requests

    twostate lemma StillValidWith(new inode: Inode)
      requires old(Valid()) && inode !in old(nodes)
      requires inode.ino in old(inodeMap) ==> old(inodeMap)[inode.ino] == null
      requires inode.dentries == map[] && inode.parents == map[]
      requires root == old(root) && edges == old(edges)
      requires inodeMap == old(inodeMap)[inode.ino := inode] && nodes == old(nodes) + {inode}
      requires forall x :: x in old(nodes) ==>
        x.ino == old(x.ino) && x.dentries == old(x.dentries) && x.parents == old(x.parents)
      ensures Valid()
    {
      forall i | i in inodeMap ensures SlotIsRight(i) {
        assert i in old(inodeMap) ==> old(SlotIsRight(i));
      }
      forall x | x in nodes ensures IsIndexed(x) && DentriesAreEdges(x) && ParentsAreEdges(x) {
        if x != inode {
          assert old(IsIndexed(x)) && old(DentriesAreEdges(x)) && old(ParentsAreEdges(x));
        }
      }
      forall e | e in edges ensures DentryIsHeld(e) && ParentIsHeld(e) {
        assert old(DentryIsHeld(e)) && old(ParentIsHeld(e));
      }
    }

    /** Reference counts and descriptors are not part of the graph. */
    twostate lemma StillValid()
      requires old(ValidDown()) && SameInodes() && edges == old(edges)
      requires forall x :: x in nodes ==> x.dentries == old(x.dentries) && x.parents == old(x.parents)
      ensures ValidDown() && (Valid() <==> old(Valid()))
    {
      StillIndexed();
      forall x | x in nodes ensures DentriesAreEdges(x) && (ParentsAreEdges(x) <==> old(ParentsAreEdges(x))) {
        assert old(DentriesAreEdges(x));
      }
      forall e | e in edges ensures DentryIsHeld(e) && (ParentIsHeld(e) <==> old(ParentIsHeld(e))) {
        assert old(DentryIsHeld(e));
      }
    }

    /** No entry of the inode map and no reference count has changed. */
    twostate lemma RefsKept()
      requires old(Indexed()) && Indexed() && inodeMap == old(inodeMap) && nodes == old(nodes)
      requires forall x :: x in nodes ==> x.ref == old(x.ref)
      ensures Refs() == old(Refs()) && Holes() == old(Holes())
    {
      forall i | i in inodeMap && inodeMap[i] != null ensures Refs()[i] == old(Refs())[i] {
        assert SlotIsRight(i);
      }
    }

    /** `in->ref++`. */
    method TakeRef(inode: Inode)
      requires ValidDown() && inode in nodes
      modifies inode`ref
      ensures ValidDown() && (Valid() <==> old(Valid()))
      ensures inode.ino in old(Refs()) && Refs() == old(Refs())[inode.ino := old(Refs())[inode.ino] + 1]
    {
      assert IsIndexed(inode);
      inode.ref := inode.ref + 1;
      StillValid();
      forall i | i in inodeMap && inodeMap[i] != null
        ensures Refs()[i] == old(Refs())[i] + if i == inode.ino then 1 else 0
      {
        assert SlotIsRight(i);
      }
    }

    /** `new Inode`, filled in and entered in the inode map. */
    method NewInode(i: Ino) returns (inode: Inode)
      requires Valid() && !Cached(i)
      modifies this`inodeMap, this`nodes
      ensures Valid() && fresh(inode) && inode.ino == i && inode.ref == 0
      ensures nodes == old(nodes) + {inode} && inodeMap == old(inodeMap)[i := inode]
      ensures Refs() == old(Refs())[i := 0] && Holes() == old(Holes()) - {i}
    {
      inode := new Inode(i);
      inodeMap := inodeMap[i := inode];
      nodes := nodes + {inode};
      StillValidWith(inode);
      forall j | j in inodeMap && inodeMap[j] != null ensures Refs()[j] == if j == i then 0 else old(Refs())[j] {
        assert SlotIsRight(j) && (j != i ==> old(SlotIsRight(j)));
      }
    }

    /** add_inode dereferences whatever the inode map holds for the number, so that must not be a null entry. */
    method AddInode(parent: Inode, name: string, i: Ino, freed: map<string, string>) returns (inode: Inode)
      requires Valid() && parent in nodes
      requires i in inodeMap ==> inodeMap[i] != null
      modifies this`inodeMap, this`nodes, this`edges, nodes`dentries, nodes`parents, nodes`fds
      ensures ValidDown() && (Valid() <==> old(Cached(i) ==> KeysSurvive(edges, i, freed)))
      ensures edges == FuseMachine.AddDentry(
                         if old(Cached(i)) then WithoutInode(old(edges), i) else old(edges), parent.ino, name, i)
      ensures nodes == old(nodes) + {inode} && inodeMap == old(inodeMap)[i := inode] && inode.ino == i
      ensures inode in old(nodes) || fresh(inode)
      ensures Refs() == if old(Cached(i)) then old(Refs()) else old(Refs())[i := 0]
      ensures Holes() == old(Holes())
    {
      if i in inodeMap {
        assert SlotIsRight(i);
        inode := inodeMap[i];
        var _ := UnlinkInode(inode, freed);
        RefsKept();
        assert inodeMap == inodeMap[i := inode];
      } else {
        inode := NewInode(i);
      }
      label entered:
      AddDentry(parent, name, inode);
      RefsKept@entered();
      if old(Cached(i) && !KeysSurvive(edges, i, freed)) {
        KeptIsWrong(inode);
      }
    }

    /** `in->fds.insert(fd)`. */
    method KeepFd(inode: Inode, fd: nat)
      requires ValidDown() && inode in nodes
      modifies inode`fds
      ensures ValidDown() && (Valid() <==> old(Valid())) && inode.fds == old(inode.fds) + {fd}
      ensures View() == old(View())
    {
      inode.fds := inode.fds + {fd};
      StillValid();
      RefsKept();
    }

    /** The cache section of mknod, mkdir, symlink and create. */
    method Create(pino: Ino, name: string, i: Ino, fd: Option<nat>, freed: map<string, string>)
      requires Valid() && Cached(pino) && (i in inodeMap ==> inodeMap[i] != null)
      modifies this`inodeMap, this`nodes, this`edges, nodes
      ensures ValidDown() && (Valid() <==> KeysRead(old(View()), Op.Create(pino, name, i), freed))
      ensures View() == Step(old(View()), Op.Create(pino, name, i)).state
      ensures fresh(nodes - old(nodes))
      ensures fd.Some? ==> Cached(i) && fd.value in inodeMap[i].fds
    {
      assert SlotIsRight(pino);
      var pin: Inode := inodeMap[pino];
      var inode := AddInode(pin, name, i, freed);
      TakeRef(inode);
      if fd.Some? {
        KeepFd(inode, fd.value);
      }
    }

    /** Whether make_inode_path succeeds. */
    method HasPath(inode: Inode) returns (ok: bool)
      requires Valid() && Acyclic(edges) && inode in nodes
      ensures ok <==> Attached(edges, inode.ino)
    {
      var made, _ := MakeInodePath(inode);
      return made;
    }

    /** A lookup that misses the name but finds a number that is already cached, as for a second hard link. */
    ghost predicate MissesCachedIno(pino: Ino, name: string, perm: bool, st: Option<Ino>)
      reads this
    {
      && perm && Attached(edges, pino) && Find(edges, pino, name).None?
      && st.Some? && Cached(st.value)
    }

    /** A re-stat of a cached name that finds another number than before. */
    ghost predicate FindsOtherIno(pino: Ino, name: string, perm: bool, st: Option<Ino>)
      reads this
    {
      && perm && Attached(edges, pino) && Find(edges, pino, name).Some?
      && st.Some? && st != Find(edges, pino, name)
    }

    /** The hit of ft_ll_lookup: lstat writes over the inode's attributes, its number among them. */
    method Restat(inode: Inode, i: Ino)
      requires Valid() && inode in nodes
      modifies inode`ino, inode`ref
      ensures Valid() <==> i == old(inode.ino)
      ensures i == old(inode.ino) ==> i in old(Refs()) && Refs() == old(Refs())[i := old(Refs())[i] + 1]
    {
      assert IsIndexed(inode) && SlotIsRight(inode.ino);
      ghost var was := inode.ino;
      inode.ino := i;
      inode.ref := inode.ref + 1;
      if i == was {
        StillValid();
        forall j | j in inodeMap && inodeMap[j] != null
          ensures Refs()[j] == old(Refs())[j] + if j == i then 1 else 0
        {
          assert SlotIsRight(j) && old(SlotIsRight(j));
        }
      } else {
        assert !SlotIsRight(was);
      }
    }

    /**
     The whole locked section of ft_ll_lookup. The cache stays consistent
     exactly when the lookup neither finds a cached number under a new name,
     where a second inode takes over the number in the inode map, nor another
     number under a cached name, which the inode map does not learn of.
     */
    method Lookup(pino: Ino, name: string, perm: bool, st: Option<Ino>) returns (reply: Option<Ino>)
      requires Valid() && Acyclic(edges) && Cached(pino)
      modifies this`inodeMap, this`nodes, this`edges, nodes
      ensures Valid() <==> !old(MissesCachedIno(pino, name, perm, st) || FindsOtherIno(pino, name, perm, st))
      ensures fresh(nodes - old(nodes))
      ensures Valid() ==> View() == Step(old(View()), Op.Lookup(pino, name, perm, st)).state
      ensures reply == Step(old(View()), Op.Lookup(pino, name, perm, st)).reply
    {
      assert SlotIsRight(pino);
      var pin: Inode := inodeMap[pino];
      NameIsEdge(pin, name);
      if !perm {
        return None;
      }
      var ok := HasPath(pin);
      if !ok {
        return None;
      }
      var inode := pin.Lookup(name);
      if st.None? {
        return None;
      }
      if inode != null {
        ViewWellFormed();
        assert IsIndexed(inode);
        Restat(inode, st.value);
        return st;
      }
      if Cached(st.value) {
        LookupOver(pin, name, st.value);
      } else {
        LookupFresh(pin, name, st.value);
      }
      return st;
    }

    /** The miss of ft_ll_lookup on a number that is not cached. */
    method LookupFresh(pin: Inode, name: string, i: Ino)
      requires Valid() && pin in nodes && !Cached(i)
      modifies this`inodeMap, this`nodes, this`edges, nodes
      ensures Valid() && edges == FuseMachine.AddDentry(old(edges), old(pin.ino), name, i)
      ensures Refs() == old(Refs())[i := 1] && Holes() == old(Holes()) - {i}
      ensures fresh(nodes - old(nodes))
    {
      var inode := NewInode(i);
      label entered:
      AddDentry(pin, name, inode);
      RefsKept@entered();
      TakeRef(inode);
    }

    /**
     The same assignments on a number that is cached: a second inode with one
     reference takes its place in the map, and the one it replaces keeps its
     references and its names, but no request finds it by number any more.
     */
    method LookupOver(pin: Inode, name: string, i: Ino)
      requires Valid() && pin in nodes && Cached(i) && name !in pin.dentries
      modifies this`inodeMap, this`nodes, this`edges, nodes
      ensures !Valid() && fresh(nodes - old(nodes)) && old(nodes) <= nodes
      ensures Cached(i) && inodeMap == old(inodeMap)[i := inodeMap[i]] && fresh(inodeMap[i]) && inodeMap[i].ref == 1
      ensures forall j :: j in inodeMap ==> inodeMap[j] != old(inodeMap[i])
      ensures old(inodeMap[i]).ino == i && old(inodeMap[i]).ref == old(inodeMap[i].ref)
    {
      ghost var other: Inode := inodeMap[i];
      assert SlotIsRight(i);
      forall j | j in inodeMap && j != i ensures inodeMap[j] != other {
        assert SlotIsRight(j);
      }
      var inode := new Inode(i);
      inodeMap := inodeMap[i := inode];
      pin.dentries := pin.dentries[name := inode];
      inode.parents := inode.parents[(name, pin.ino) := pin];
      inode.ref := inode.ref + 1;
      nodes := nodes + {inode};
      edges := edges + {Edge(pin.ino, name, i)};
      assert !IsIndexed(other);
    }

    method ForgetCached(inode: Inode, nlookup: nat, freed: map<string, string>)
      requires Valid() && inode in nodes && inode != root
      modifies this`inodeMap, this`nodes, this`edges, nodes
      ensures ValidDown() && (Valid() <==> KeysRead(old(View()), Op.Forget(old(inode.ino), nlookup), freed))
      ensures View() == DoForget(old(View()), old(inode.ino), nlookup)
      ensures nodes <= old(nodes)
    {
      assert IsIndexed(inode) && IsIndexed(root);
      inode.ref := ToInt32(inode.ref - nlookup);
      StillValid();
      forall j | j in inodeMap && inodeMap[j] != null
        ensures Refs()[j] == if j == inode.ino then inode.ref else old(Refs())[j]
      {
        assert SlotIsRight(j);
      }
      if inode.ref <= 0 {
        label dropped:
        RemoveInode(inode, freed);
        RefsWithout@dropped(inode);
      }
    }

    twostate lemma RefsWithout(inode: Inode)
      requires old(Indexed()) && Indexed() && inode in old(nodes) && inode.ino == old(inode.ino)
      requires inodeMap == old(inodeMap) - {inode.ino} && nodes == old(nodes) - {inode}
      requires forall x :: x in nodes ==> x.ref == old(x.ref)
      ensures Refs() == old(Refs()) - {inode.ino} && Holes() == old(Holes())
    {
      assert old(IsIndexed(inode));
      forall j | j in inodeMap && inodeMap[j] != null ensures Refs()[j] == old(Refs())[j] {
        assert SlotIsRight(j) && old(SlotIsRight(j));
      }
    }

    /** `inode_map[ino]` of an inode that is not cached leaves a null entry behind. */
    twostate lemma AskedForUncached()
      requires old(Valid()) && root == old(root) && nodes == old(nodes) && edges == old(edges)
      requires exists i: Ino :: !old(Cached(i)) && inodeMap == old(inodeMap)[i := null]
      requires forall x :: x in nodes ==>
        x.ino == old(x.ino) && x.dentries == old(x.dentries) && x.parents == old(x.parents) && x.ref == old(x.ref)
      ensures Valid()
      ensures Refs() == old(Refs())
    {
      forall j | j in inodeMap ensures SlotIsRight(j) {
        assert j in old(inodeMap) ==> old(SlotIsRight(j));
      }
      forall x | x in nodes ensures IsIndexed(x) && DentriesAreEdges(x) && ParentsAreEdges(x) {
        assert old(IsIndexed(x)) && old(DentriesAreEdges(x)) && old(ParentsAreEdges(x));
      }
      forall e | e in edges ensures DentryIsHeld(e) && ParentIsHeld(e) {
        assert old(DentryIsHeld(e)) && old(ParentIsHeld(e));
      }
      forall j | j in inodeMap && inodeMap[j] != null ensures Refs()[j] == old(Refs())[j] {
        assert SlotIsRight(j) && old(SlotIsRight(j));
      }
    }

    method Forget(i: Ino, nlookup: nat, freed: map<string, string>)
      requires Valid()
      modifies this`inodeMap, this`nodes, this`edges, nodes
      ensures ValidDown() && (Valid() <==> KeysRead(old(View()), Op.Forget(i, nlookup), freed))
      ensures View() == Step(old(View()), Op.Forget(i, nlookup)).state
      ensures nodes <= old(nodes)
    {
      assert IsIndexed(root);
      if i != ROOT_INO {
        if Cached(i) {
          assert SlotIsRight(i);
          var inode: Inode := inodeMap[i];
          ForgetCached(inode, nlookup, freed);
        } else {
          inodeMap := inodeMap[i := null];
          AskedForUncached();
        }
      }
    }

    method Unlink(pino: Ino, name: string)
      requires Valid() && Cached(pino)
      modifies this`edges, nodes`dentries, nodes`parents
      ensures Valid()
      ensures View() == Step(old(View()), Op.Unlink(pino, name)).state
      ensures inodeMap[pino].dentries == old(inodeMap[pino].dentries) - {name}
      ensures forall x :: x in nodes && x != inodeMap[pino] ==> x.dentries == old(x.dentries)
    {
      assert SlotIsRight(pino);
      var pin: Inode := inodeMap[pino];
      NameIsEdge(pin, name);
      if pin.Lookup(name) != null {
        DropDentry(pin, name);
        RefsKept();
      }
    }

    method Rename(pino: Ino, name: string, newpino: Ino, newname: string)
      requires Valid() && Cached(pino) && Cached(newpino)
      modifies this`edges, nodes`dentries, nodes`parents
      ensures Valid()
      ensures View() == Step(old(View()), Op.Rename(pino, name, newpino, newname)).state
    {
      assert SlotIsRight(pino) && SlotIsRight(newpino);
      var pin: Inode, newpin: Inode := inodeMap[pino], inodeMap[newpino];
      NameIsEdge(pin, name);
      ViewWellFormed();
      var inode := pin.Lookup(name);
      if inode != null {
        AddDentry(newpin, newname, inode);
        NameIsEdge(pin, name);
        DropDentry(pin, name);
        RefsKept();
      }
    }

    method Link(i: Ino, newpino: Ino, newname: string)
      requires Valid() && Cached(i) && Cached(newpino)
      modifies this`edges, nodes`dentries, nodes`parents, nodes`ref
      ensures Valid()
      ensures View() == Step(old(View()), Op.Link(i, newpino, newname)).state
    {
      assert SlotIsRight(i) && SlotIsRight(newpino);
      var inode: Inode, newpin: Inode := inodeMap[i], inodeMap[newpino];
      AddDentry(newpin, newname, inode);
      RefsKept();
      TakeRef(inode);
    }

    /** One request, dispatched to its handler. */
    method Serve(op: Op, freed: map<string, string>)
      requires Valid() && Acyclic(edges) && Sound(View(), op)
      modifies this`inodeMap, this`nodes, this`edges, nodes
      ensures ValidDown() && fresh(nodes - old(nodes))
      ensures Valid() <==> KeysRead(old(View()), op, freed)
      ensures View() == Step(old(View()), op).state
    {
      match op
      case Lookup(p, n, perm, st) =>
        var _ := Lookup(p, n, perm, st);
      case Forget(i, n) => Forget(i, n, freed);
      case Create(p, n, i) => Create(p, n, i, None, freed);
      case Unlink(p, n) => Unlink(p, n);
      case Rename(p, n, q, m) => Rename(p, n, q, m);
      case Link(i, p, n) => Link(i, p, n);
    }
  }

  /** The name in the directory finds what is told of it. */
  ghost predicate Finds(cache: Cache, p: Ino, n: string, found: Option<Ino>)
    reads cache, cache.nodes, set i | i in cache.inodeMap :: cache.inodeMap[i]
  {
    cache.Cached(p) ==>
      match found
      case None => n !in cache.inodeMap[p].dentries
      case Some(c) =>
        && n in cache.inodeMap[p].dentries && cache.Cached(c)
        && cache.inodeMap[p].dentries[n] == cache.inodeMap[c]
  }

  lemma NameFinds(cache: Cache, p: Ino, n: string)
    requires cache.Valid()
    ensures Finds(cache, p, n, Find(cache.edges, p, n))
  {
    if cache.Cached(p) {
      assert cache.SlotIsRight(p);
      cache.NameIsEdge(cache.inodeMap[p], n);
      var f := Find(cache.edges, p, n);
      if f.Some? {
        assert cache.DentryIsHeld(Edge(p, n, f.value));
      }
    }
  }

  lemma {:induction false} FairPrefix(ops: seq<Op>, k: nat)
    requires FairRun(ops) && k <= |ops|
    ensures FairRun(ops[..k])
    decreases |ops|
  {
    if k == |ops| {
      assert ops[..k] == ops;
    } else {
      FairPrefix(ops[..|ops| - 1], k);
      assert ops[..|ops| - 1][..k] == ops[..k];
    }
  }

  /** No request of the run loses a name to a freed key. */
  ghost predicate KeysReadThroughout(ops: seq<Op>, freed: seq<map<string, string>>) {
    |freed| == |ops| && forall k :: 0 <= k < |ops| ==> KeysRead(After(ops[..k]), ops[k], freed[k])
  }

  /** What the k-th request of a fair run meets and leaves. */
  lemma RequestOfRun(ops: seq<Op>, k: nat)
    requires FairRun(ops) && k < |ops|
    ensures Inv(After(ops[..k])) && Sound(After(ops[..k]), ops[k])
    ensures After(ops[..k + 1]) == Step(After(ops[..k]), ops[k]).state
  {
    assert ops[..k + 1][..k] == ops[..k];
    FairPrefix(ops, k + 1);
    RunConservesReferences(ops[..k]);
  }

  /** A fresh mount serves the requests one by one. */
  method Mount(basedir: string, ops: seq<Op>, freed: seq<map<string, string>>) returns (cache: Cache)
    requires FairRun(ops) && KeysReadThroughout(ops, freed)
    ensures fresh(cache) && cache.Valid() && cache.View() == After(ops)
  {
    cache := new Cache(basedir);
    for k := 0 to |ops|
      invariant fresh(cache) && fresh(cache.nodes) && cache.Valid()
      invariant cache.View() == After(ops[..k])
    {
      RequestOfRun(ops, k);
      cache.Serve(ops[k], freed[k]);
    }
    assert ops[..|ops|] == ops;
  }

  /**
   The pointer structure over every fair run: it stays consistent and mirrored,
   and holds what the kernel holds.
   */
  method ServeAll(basedir: string, ops: seq<Op>, freed: seq<map<string, string>>) returns (cache: Cache)
    requires FairRun(ops) && KeysReadThroughout(ops, freed)
    ensures fresh(cache) && cache.Valid() && cache.Mirrored()
    ensures cache.View() == After(ops)
    ensures forall i: Ino :: i != ROOT_INO ==> (cache.Cached(i) <==> Outstanding(ops, i) > 0)
    ensures forall i: Ino :: i != ROOT_INO && cache.Cached(i) ==> cache.inodeMap[i].ref == Outstanding(ops, i)
    ensures forall p: Ino, n: string :: Finds(cache, p, n, Found(ops, p, n))
  {
    cache := Mount(basedir, ops, freed);
    RunConservesReferences(ops);
    cache.ValidIsMirrored();
    forall p: Ino, n: string ensures Finds(cache, p, n, Found(ops, p, n)) {
      RunFinds(ops, p, n);
      NameFinds(cache, p, n);
    }
    forall i: Ino | i != ROOT_INO
      ensures cache.Cached(i) <==> Outstanding(ops, i) > 0
      ensures cache.Cached(i) ==> cache.inodeMap[i].ref == Outstanding(ops, i)
    {
      assert Conserves(After(ops), ops, i) && (cache.Cached(i) <==> i in cache.Refs());
    }
  }
}
