/**
 The dentry graph of the FUSE tracer's inode cache, as a value: a finite set of
 edges `parent --name--> child` between inode numbers.

 The tracer keeps this graph twice, as `dentries` on the parent and as
 `parents` on the child (module FuseCache ties both to one edge set). Here are
 the facts about the graph alone: when an added edge keeps it acyclic, why the
 climb of make_inode_path ends, and that the names it collects lead back down
 to the inode it started from.
 */
module DentryGraph {
  import opened Options

  type Ino = nat

  const ROOT_INO: Ino := 1

  datatype Edge = Edge(parent: Ino, name: string, child: Ino)


  // ---------------------------------------------------------------- edges

  /** At most one child under each name of a directory: `dentries` is a map. */
  ghost predicate Functional(E: set<Edge>) {
    forall e, f :: e in E && f in E && e.parent == f.parent && e.name == f.name ==> e == f
  }

  /** `Inode::lookup`: the child under a name, if it is cached. */
  ghost function Find(E: set<Edge>, p: Ino, n: string): (r: Option<Ino>)
    ensures r.Some? ==> Edge(p, n, r.value) in E
    ensures r.None? ==> forall e :: e in E && e.parent == p ==> e.name != n
  {
    if c: Ino :| Edge(p, n, c) in E then
      Some(c)
    else
      assert forall e :: e in E && e.parent == p && e.name == n ==> Edge(p, n, e.child) in E;
      None
  }

  /** The edges left when the name is removed from the directory. */
  ghost function WithoutName(E: set<Edge>, p: Ino, n: string): set<Edge> {
    set e | e in E && !(e.parent == p && e.name == n)
  }

  /** The edges left when everything touching the inode is removed. */
  ghost function WithoutInode(E: set<Edge>, i: Ino): set<Edge> {
    set e | e in E && e.parent != i && e.child != i
  }

  /** What a freed key reads as: `freed` lists the names that do not read back unchanged. */
  function Reread(freed: map<string, string>, n: string): string {
    if n in freed then freed[n] else n
  }

  /** Some name of the same directory and child reads as the name of this edge. */
  ghost predicate KeyIsRead(E: set<Edge>, e: Edge, freed: map<string, string>) {
    exists f :: f in E && f.parent == e.parent && f.child == e.child && Reread(freed, f.name) == e.name
  }

  /**
   When the names of an inode are removed one by one, each read again after it
   was freed, every child loses all the names it had in that inode: child by
   child, they read back as a permutation of themselves.
   */
  ghost predicate KeysSurvive(E: set<Edge>, i: Ino, freed: map<string, string>) {
    forall e {:trigger KeyIsRead(E, e, freed)} ::
      e in E && e.parent == i && e.child != i ==> KeyIsRead(E, e, freed)
  }

  /** They do when they read back unchanged, or when there are none but the inode's own. */
  lemma UnchangedKeysSurvive(E: set<Edge>, i: Ino, freed: map<string, string>)
    requires forall e :: e in E && e.parent == i && e.child != i ==> Reread(freed, e.name) == e.name
    ensures KeysSurvive(E, i, freed)
  {
    forall e | e in E && e.parent == i && e.child != i ensures KeyIsRead(E, e, freed) {
    }
  }

  /** Only the edges to other inodes matter. */
  lemma KeysSurviveWithoutParents(E: set<Edge>, F: set<Edge>, i: Ino, freed: map<string, string>)
    requires F == set e | e in E && e.child != i
    ensures KeysSurvive(E, i, freed) <==> KeysSurvive(F, i, freed)
  {
    forall e | e in F ensures KeyIsRead(E, e, freed) <==> KeyIsRead(F, e, freed) {
    }
  }

  // --------------------------------------------------------- reachability

  ghost predicate Linked(E: set<Edge>, a: Ino, b: Ino) {
    exists e :: e in E && e.parent == a && e.child == b
  }

  ghost predicate IsPath(E: set<Edge>, p: seq<Ino>) {
    |p| >= 1 && forall i :: 0 <= i < |p| - 1 ==> Linked(E, p[i], p[i + 1])
  }

  ghost predicate PathFromTo(E: set<Edge>, p: seq<Ino>, a: Ino, b: Ino) {
    IsPath(E, p) && p[0] == a && p[|p| - 1] == b
  }

  /** Going down zero or more edges from `a` can end at `b`. */
  ghost predicate Reaches(E: set<Edge>, a: Ino, b: Ino) {
    exists p :: PathFromTo(E, p, a, b)
  }

  /** No edge can be closed into a cycle by edges of the graph. */
  ghost predicate Acyclic(E: set<Edge>) {
    forall e :: e in E ==> !Reaches(E, e.child, e.parent)
  }

  lemma ReachesSelf(E: set<Edge>, a: Ino)
    ensures Reaches(E, a, a)
  {
    assert PathFromTo(E, [a], a, a);
  }

  lemma ReachesTransitive(E: set<Edge>, a: Ino, b: Ino, c: Ino)
    requires Reaches(E, a, b) && Reaches(E, b, c)
    ensures Reaches(E, a, c)
  {
    var p :| PathFromTo(E, p, a, b);
    var q :| PathFromTo(E, q, b, c);
    var r := p + q[1..];
    forall i | 0 <= i < |r| - 1 ensures Linked(E, r[i], r[i + 1]) {
      if i < |p| - 1 {
        assert r[i] == p[i] && r[i + 1] == p[i + 1];
      } else {
        assert r[i] == q[i - |p| + 1] && r[i + 1] == q[i - |p| + 2];
      }
    }
    assert PathFromTo(E, r, a, c);
  }

  lemma EdgeReaches(E: set<Edge>, e: Edge)
    requires e in E
    ensures Reaches(E, e.parent, e.child)
  {
    assert Linked(E, e.parent, e.child);
    assert PathFromTo(E, [e.parent, e.child], e.parent, e.child);
  }

  lemma ReachesMonotone(E: set<Edge>, F: set<Edge>, a: Ino, b: Ino)
    requires E <= F && Reaches(E, a, b)
    ensures Reaches(F, a, b)
  {
    var p :| PathFromTo(E, p, a, b);
    forall i | 0 <= i < |p| - 1 ensures Linked(F, p[i], p[i + 1]) {
      assert Linked(E, p[i], p[i + 1]);
    }
    assert PathFromTo(F, p, a, b);
  }

  lemma AcyclicSubset(E: set<Edge>, F: set<Edge>)
    requires E <= F && Acyclic(F)
    ensures Acyclic(E)
  {
    forall e | e in E ensures !Reaches(E, e.child, e.parent) {
      if Reaches(E, e.child, e.parent) {
        ReachesMonotone(E, F, e.child, e.parent);
      }
    }
  }

  /** A walk that may use one extra edge either never does, or reaches that edge and comes from it. */
  lemma {:induction false} PathThroughNewEdge(E: set<Edge>, e: Edge, p: seq<Ino>)
    requires IsPath(E + {e}, p)
    ensures var a, b := p[0], p[|p| - 1];
            Reaches(E, a, b) || (Reaches(E, a, e.parent) && Reaches(E, e.child, b))
    decreases |p|
  {
    var a, b := p[0], p[|p| - 1];
    if |p| == 1 {
      ReachesSelf(E, a);
    } else {
      var q := p[1..];
      forall i | 0 <= i < |q| - 1 ensures Linked(E + {e}, q[i], q[i + 1]) {
        assert Linked(E + {e}, p[i + 1], p[i + 2]);
      }
      PathThroughNewEdge(E, e, q);
      assert Linked(E + {e}, p[0], p[1]);
      var f :| f in E + {e} && f.parent == a && f.child == p[1];
      if f == e {
        ReachesSelf(E, a);
      } else {
        EdgeReaches(E, f);
        if Reaches(E, p[1], b) {
          ReachesTransitive(E, a, p[1], b);
        } else {
          ReachesTransitive(E, a, p[1], e.parent);
        }
      }
    }
  }

  /** An added edge keeps the graph acyclic exactly when its parent cannot be reached from its child. */
  lemma AddEdgeAcyclic(E: set<Edge>, e: Edge)
    requires Acyclic(E)
    ensures Acyclic(E + {e}) <==> !Reaches(E, e.child, e.parent)
  {
    if Reaches(E, e.child, e.parent) {
      ReachesMonotone(E, E + {e}, e.child, e.parent);
      assert e in E + {e};
    } else {
      forall f | f in E + {e} ensures !Reaches(E + {e}, f.child, f.parent) {
        if Reaches(E + {e}, f.child, f.parent) {
          var p :| PathFromTo(E + {e}, p, f.child, f.parent);
          PathThroughNewEdge(E, e, p);
          if f != e {
            EdgeReaches(E, f);
            ReachesTransitive(E, e.child, f.parent, f.child);
            ReachesTransitive(E, e.child, f.child, e.parent);
          }
          assert false;
        }
      }
    }
  }

  /** The inodes strictly above `x`: the measure of the climb. */
  ghost function Above(E: set<Edge>, x: Ino): set<Ino> {
    set e | e in E && Reaches(E, e.child, x) :: e.parent
  }

  /** One step up an edge leaves strictly fewer inodes above. */
  lemma AboveShrinks(E: set<Edge>, e: Edge)
    requires Acyclic(E) && e in E
    ensures Above(E, e.parent) < Above(E, e.child)
  {
    var p, x := e.parent, e.child;
    forall a | a in Above(E, p) ensures a in Above(E, x) {
      var f :| f in E && Reaches(E, f.child, p) && f.parent == a;
      EdgeReaches(E, e);
      ReachesTransitive(E, f.child, p, x);
    }
    ReachesSelf(E, x);
    assert p in Above(E, x);
    assert p !in Above(E, p);
  }

  // -------------------------------------------- the order of `parents`

  /** The keys of `Inode::parents`: a name and the number of the directory holding it. */
  type Key = (string, Ino)

  predicate StringLe(a: string, b: string) {
    a == [] || (b != [] && (a[0] < b[0] || (a[0] == b[0] && StringLe(a[1..], b[1..]))))
  }

  /** The lexicographic order of `pair<string, ino_t>`. */
  predicate KeyLe(k: Key, l: Key) {
    if k.0 == l.0 then k.1 <= l.1 else StringLe(k.0, l.0)
  }

  lemma {:induction false} StringLeOrder(a: string, b: string)
    ensures StringLe(a, b) || StringLe(b, a)
    ensures StringLe(a, b) && StringLe(b, a) ==> a == b
  {
    if a != [] && b != [] && a[0] == b[0] {
      StringLeOrder(a[1..], b[1..]);
      assert a == [a[0]] + a[1..] && b == [b[0]] + b[1..];
    }
  }

  /** A name comes before its extensions, and otherwise the first difference decides. */
  lemma {:induction false} StringLeDecides(p: string, a: char, b: char, x: string, y: string)
    requires a < b
    ensures StringLe(p, p + x)
    ensures StringLe(p + [a] + x, p + [b] + y) && !StringLe(p + [b] + y, p + [a] + x)
    decreases |p|
  {
    if p != [] {
      StringLeDecides(p[1..], a, b, x, y);
      assert (p + x)[1..] == p[1..] + x;
      assert (p + [a] + x)[1..] == p[1..] + [a] + x && (p + [b] + y)[1..] == p[1..] + [b] + y;
    }
  }

  lemma {:induction false} StringLeTransitive(a: string, b: string, c: string)
    requires StringLe(a, b) && StringLe(b, c)
    ensures StringLe(a, c)
  {
    if a != [] && a[0] == b[0] && b[0] == c[0] {
      StringLeTransitive(a[1..], b[1..], c[1..]);
    }
  }

  lemma KeyLeTransitive(k: Key, l: Key, m: Key)
    requires KeyLe(k, l) && KeyLe(l, m)
    ensures KeyLe(k, m)
  {
    if k.0 != l.0 && l.0 != m.0 {
      StringLeTransitive(k.0, l.0, m.0);
      if k.0 == m.0 {
        StringLeOrder(k.0, l.0);
      }
    }
  }

  /** `begin()` of a map keyed by K points at the least key. */
  predicate IsFirst(K: set<Key>, k: Key) {
    k in K && forall l :: l in K ==> KeyLe(k, l)
  }

  lemma {:induction false} FirstExists(K: set<Key>)
    requires K != {}
    ensures exists k :: IsFirst(K, k)
    decreases |K|
  {
    var x :| x in K;
    var R := K - {x};
    StringLeOrder(x.0, x.0);
    if R == {} {
      assert K == {x};
      assert IsFirst(K, x);
    } else {
      FirstExists(R);
      var y :| IsFirst(R, y);
      StringLeOrder(x.0, y.0);
      if KeyLe(x, y) {
        forall l | l in K ensures KeyLe(x, l) {
          if l != x { KeyLeTransitive(x, y, l); }
        }
        assert IsFirst(K, x);
      } else {
        assert IsFirst(K, y);
      }
    }
  }

  lemma FirstUnique(K: set<Key>, k: Key, l: Key)
    requires IsFirst(K, k) && IsFirst(K, l)
    ensures k == l
  {
    StringLeOrder(k.0, l.0);
  }

  ghost function First(K: set<Key>): (k: Key)
    requires K != {}
    ensures IsFirst(K, k)
  {
    FirstExists(K);
    var k :| IsFirst(K, k);
    k
  }

  /** The keys `parents` holds for an inode. */
  ghost function ParentKeys(E: set<Edge>, x: Ino): set<Key> {
    set e | e in E && e.child == x :: (e.name, e.parent)
  }

  lemma ParentKeyIsEdge(E: set<Edge>, x: Ino, k: Key)
    ensures k in ParentKeys(E, x) <==> Edge(k.1, k.0, x) in E
  {
    if Edge(k.1, k.0, x) in E {
      var e := Edge(k.1, k.0, x);
      assert (e.name, e.parent) in ParentKeys(E, x);
    }
  }

  // ------------------------------------------------ make_inode_path

  /** The names make_inode_path collects on its climb through first parents; None when it returns false. */
  ghost function PathOf(E: set<Edge>, x: Ino): Option<seq<string>>
    requires Acyclic(E)
    decreases Above(E, x)
  {
    if ParentKeys(E, x) == {} then
      if x == ROOT_INO then Some([]) else None
    else
      var k := First(ParentKeys(E, x));
      ParentKeyIsEdge(E, x, k);
      AboveShrinks(E, Edge(k.1, k.0, x));
      match PathOf(E, k.1)
      case None => None
      case Some(names) => Some(names + [k.0])
  }

  /** `chain` climbs from `x` through first parents to an inode without parents. */
  ghost predicate ClimbsTo(E: set<Edge>, x: Ino, top: Ino, chain: seq<Ino>) {
    && |chain| >= 1 && chain[0] == x && chain[|chain| - 1] == top
    && ParentKeys(E, top) == {}
    && forall i :: 0 <= i < |chain| - 1 ==>
         ParentKeys(E, chain[i]) != {} && First(ParentKeys(E, chain[i])).1 == chain[i + 1]
  }

  /** The inode is attached: its first-parent chain ends at the parentless root. */
  ghost predicate Attached(E: set<Edge>, x: Ino) {
    exists chain :: ClimbsTo(E, x, ROOT_INO, chain)
  }

  lemma {:induction false} ClimbIsUnique(E: set<Edge>, x: Ino, t: Ino, c: seq<Ino>, u: Ino, d: seq<Ino>)
    requires ClimbsTo(E, x, t, c) && ClimbsTo(E, x, u, d)
    ensures t == u
    decreases |c|
  {
    if |c| > 1 && |d| > 1 {
      var y := First(ParentKeys(E, x)).1;
      assert c[1] == y && d[1] == y;
      assert ClimbsTo(E, y, t, c[1..]) by {
        forall i | 0 <= i < |c[1..]| - 1
          ensures ParentKeys(E, c[1..][i]) != {} && First(ParentKeys(E, c[1..][i])).1 == c[1..][i + 1]
        {
          assert ParentKeys(E, c[i + 1]) != {};
        }
      }
      assert ClimbsTo(E, y, u, d[1..]) by {
        forall i | 0 <= i < |d[1..]| - 1
          ensures ParentKeys(E, d[1..][i]) != {} && First(ParentKeys(E, d[1..][i])).1 == d[1..][i + 1]
        {
          assert ParentKeys(E, d[i + 1]) != {};
        }
      }
      ClimbIsUnique(E, y, t, c[1..], u, d[1..]);
    }
  }

  /** In an acyclic graph the climb ends somewhere. */
  lemma {:induction false} ClimbExists(E: set<Edge>, x: Ino) returns (top: Ino, chain: seq<Ino>)
    requires Acyclic(E)
    ensures ClimbsTo(E, x, top, chain)
    ensures PathOf(E, x).Some? <==> top == ROOT_INO
    decreases Above(E, x)
  {
    if ParentKeys(E, x) == {} {
      top, chain := x, [x];
    } else {
      var k := First(ParentKeys(E, x));
      ParentKeyIsEdge(E, x, k);
      AboveShrinks(E, Edge(k.1, k.0, x));
      var rest;
      top, rest := ClimbExists(E, k.1);
      chain := [x] + rest;
      forall i | 0 <= i < |chain| - 1
        ensures ParentKeys(E, chain[i]) != {} && First(ParentKeys(E, chain[i])).1 == chain[i + 1]
      {
        if i > 0 { assert chain[i] == rest[i - 1] && chain[i + 1] == rest[i]; }
      }
    }
  }

  /** make_inode_path fails exactly when the chain of first parents ends at a parentless inode other than the root. */
  lemma PathFailsWhenDetached(E: set<Edge>, x: Ino)
    requires Acyclic(E)
    ensures PathOf(E, x).Some? <==> Attached(E, x)
    ensures PathOf(E, x).None? <==> exists top, chain :: top != ROOT_INO && ClimbsTo(E, x, top, chain)
  {
    var top, chain := ClimbExists(E, x);
    forall t, c | ClimbsTo(E, x, t, c) ensures t == top {
      ClimbIsUnique(E, x, top, chain, t, c);
    }
  }

  /** Walking `lookup` down from `x` along the names. */
  ghost function Walk(E: set<Edge>, x: Ino, names: seq<string>): Option<Ino>
    decreases |names|
  {
    if names == [] then Some(x)
    else match Find(E, x, names[0])
      case None => None
      case Some(c) => Walk(E, c, names[1..])
  }

  lemma {:induction false} WalkOneMore(E: set<Edge>, x: Ino, names: seq<string>, n: string)
    requires Walk(E, x, names).Some?
    ensures Walk(E, x, names + [n]) == Find(E, Walk(E, x, names).value, n)
    decreases |names|
  {
    if names == [] {
      assert [n][1..] == [];
    } else {
      assert (names + [n])[1..] == names[1..] + [n];
      WalkOneMore(E, Find(E, x, names[0]).value, names[1..], n);
    }
  }

  /** The path leads back: looking its names up from the root ends at the inode it was made for. */
  lemma {:induction false} PathWalksBack(E: set<Edge>, x: Ino)
    requires Acyclic(E) && Functional(E)
    ensures PathOf(E, x).Some? ==> Walk(E, ROOT_INO, PathOf(E, x).value) == Some(x)
    decreases Above(E, x)
  {
    if ParentKeys(E, x) != {} {
      var k := First(ParentKeys(E, x));
      ParentKeyIsEdge(E, x, k);
      AboveShrinks(E, Edge(k.1, k.0, x));
      PathWalksBack(E, k.1);
      if PathOf(E, x).Some? {
        WalkOneMore(E, ROOT_INO, PathOf(E, k.1).value, k.0);
        var f := Find(E, k.1, k.0);
        assert f.Some?;
        assert Edge(k.1, k.0, f.value) in E;
      }
    }
  }

  // ------------------------------------------ what edge updates preserve

  lemma NothingBelow(E: set<Edge>, a: Ino, b: Ino)
    requires Reaches(E, a, b) && forall f :: f in E ==> f.parent != a
    ensures a == b
  {
    var p :| PathFromTo(E, p, a, b);
    assert !Linked(E, a, if |p| == 1 then a else p[1]);
  }

  /** Replacing whatever is under a name keeps the graph acyclic when the new child does not reach the directory. */
  lemma ReplaceNameAcyclic(E: set<Edge>, p: Ino, n: string, c: Ino)
    requires Acyclic(E) && !Reaches(E, c, p)
    ensures Acyclic(WithoutName(E, p, n) + {Edge(p, n, c)})
  {
    var F := WithoutName(E, p, n);
    AcyclicSubset(F, E);
    if Reaches(F, c, p) {
      ReachesMonotone(F, E, c, p);
    }
    AddEdgeAcyclic(F, Edge(p, n, c));
  }
}
