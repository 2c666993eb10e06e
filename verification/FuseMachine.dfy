/**
 The inode cache of the FUSE tracer as a state machine over values: what each
 locked section of the request handlers does to the dentry graph, to the kernel
 reference counts and to the inode map, and what every run of requests keeps.

 Module FuseCache proves that the pointer structure makes exactly these steps.
 */
module FuseMachine {
  import opened CInt
  import opened DentryGraph
  import opened Options

  /**
   `refs` holds the count of every cached inode. `holes` are the keys that
   `inode_map[ino]` has inserted with a null pointer, by being asked for an
   inode that is not cached.
   */
  datatype State = State(edges: set<Edge>, refs: map<Ino, int>, holes: set<Ino>)

  /**
   One locked section, with the outcome of the system calls around it as input.
   - Lookup: `perm` is what has_perm said, `st` is the inode number lstat filled in, if it succeeded
   - Create: the section of mknod, mkdir, symlink and create after the call succeeded; `st` as above
   - Unlink: the section of unlink and rmdir after the call succeeded
   - Rename, Link: likewise
   */
  datatype Op =
    | Lookup(parent: Ino, name: string, perm: bool, st: Option<Ino>)
    | Forget(ino: Ino, nlookup: nat)
    | Create(parent: Ino, name: string, ino: Ino)
    | Unlink(parent: Ino, name: string)
    | Rename(parent: Ino, name: string, newparent: Ino, newname: string)
    | Link(ino: Ino, newparent: Ino, newname: string)

  /** The new state, and the inode number of the entry handed to the kernel, if one was. */
  datatype Outcome = Outcome(state: State, reply: Option<Ino>)

  /** main: the root is cached as inode 1 with one reference. */
  ghost function Initial(): State {
    State({}, map[ROOT_INO := 1], {})
  }

  // ------------------------------------------------------------- steps

  /** add_dentry: whatever the name led to is replaced. */
  ghost function AddDentry(E: set<Edge>, p: Ino, n: string, c: Ino): set<Edge> {
    WithoutName(E, p, n) + {Edge(p, n, c)}
  }

  ghost function DoLookup(s: State, p: Ino, n: string, st: Option<Ino>): Outcome {
    match (Find(s.edges, p, n), st)
    case (_, None) => Outcome(s, None)
    case (Some(c), Some(i)) =>
      if c in s.refs then Outcome(s.(refs := s.refs[c := s.refs[c] + 1]), Some(i)) else Outcome(s, None)
    case (None, Some(i)) =>
      Outcome(State(AddDentry(s.edges, p, n, i), s.refs[i := 1], s.holes - {i}), Some(i))
  }

  ghost function DoForget(s: State, i: Ino, n: nat): State {
    if i == ROOT_INO then s
    else if i in s.refs then
      var r := ToInt32(s.refs[i] - n);
      if r <= 0 then State(WithoutInode(s.edges, i), s.refs - {i}, s.holes)
      else s.(refs := s.refs[i := r])
    else s.(holes := s.holes + {i})
  }

  /** add_inode and the reference taken after it; a cached inode number is reused, cut off from all its edges. */
  ghost function DoCreate(s: State, p: Ino, n: string, i: Ino): State {
    if i in s.refs then
      State(AddDentry(WithoutInode(s.edges, i), p, n, i), s.refs[i := s.refs[i] + 1], s.holes)
    else
      State(AddDentry(s.edges, p, n, i), s.refs[i := 1], s.holes)
  }

  ghost function DoRename(s: State, p: Ino, n: string, q: Ino, m: string): State {
    match Find(s.edges, p, n)
    case None => s
    case Some(c) => s.(edges := WithoutName(AddDentry(s.edges, q, m, c), p, n))
  }

  ghost function DoLink(s: State, i: Ino, p: Ino, n: string): State {
    if i in s.refs then
      State(AddDentry(s.edges, p, n, i), s.refs[i := s.refs[i] + 1], s.holes)
    else s
  }

  ghost function Step(s: State, op: Op): Outcome {
    match op
    case Lookup(p, n, perm, st) =>
      if perm && Attached(s.edges, p) then DoLookup(s, p, n, st) else Outcome(s, None)
    case Forget(i, n) => Outcome(DoForget(s, i, n), None)
    case Create(p, n, i) => Outcome(DoCreate(s, p, n, i), Some(i))
    case Unlink(p, n) => Outcome(s.(edges := WithoutName(s.edges, p, n)), None)
    case Rename(p, n, q, m) => Outcome(DoRename(s, p, n, q, m), None)
    case Link(i, p, n) => Outcome(DoLink(s, i, p, n), Some(i))
  }

  // --------------------------------------------------------- invariant

  ghost predicate WellFormed(s: State) {
    && ROOT_INO in s.refs
    && s.holes !! s.refs.Keys
    && Functional(s.edges)
    && forall e :: e in s.edges ==> e.parent in s.refs && e.child in s.refs
  }

  ghost predicate Inv(s: State) {
    WellFormed(s) && Acyclic(s.edges)
  }

  /** Apart from the two names of the rename, nothing leads from the moved inode to its new directory. */
  ghost predicate MoveIsSound(E: set<Edge>, p: Ino, n: string, q: Ino, m: string, c: Ino) {
    (p, n) == (q, m) || !Reaches(WithoutName(WithoutName(E, q, m), p, n), c, q)
  }

  /**
   What the kernel and the file system below promise about a request:
   directories named in it are cached, a re-stat keeps the inode number, a
   lookup that is not in the cache finds an uncached inode number, and moving
   or linking an inode does not put it below itself.
   */
  ghost predicate Sound(s: State, op: Op) {
    match op
    case Lookup(p, n, perm, st) =>
      && p in s.refs
      && (perm && Attached(s.edges, p) && st.Some? ==>
            (match Find(s.edges, p, n)
             case Some(c) => st.value == c
             case None => st.value !in s.refs))
    case Forget(i, n) => true
    case Create(p, n, i) => p in s.refs && i != p && i !in s.holes
    case Unlink(p, n) => p in s.refs
    case Rename(p, n, q, m) =>
      && p in s.refs && q in s.refs
      && (match Find(s.edges, p, n)
          case None => true
          case Some(c) => MoveIsSound(s.edges, p, n, q, m, c))
    case Link(i, p, n) => i in s.refs && p in s.refs && !Reaches(WithoutName(s.edges, p, n), i, p)
  }

  /**
   The names of an inode that the request cuts off survive being read after
   they are freed: one that forget drops, or one whose number is used again.
   */
  ghost predicate KeysRead(s: State, op: Op, freed: map<string, string>) {
    match op
    case Forget(i, n) =>
      i != ROOT_INO && i in s.refs && ToInt32(s.refs[i] - n) <= 0 ==> KeysSurvive(s.edges, i, freed)
    case Create(_, _, i) => i in s.refs ==> KeysSurvive(s.edges, i, freed)
    case _ => true
  }

  lemma AddDentryInv(s: State, E: set<Edge>, p: Ino, n: string, c: Ino, refs: map<Ino, int>, holes: set<Ino>)
    requires WellFormed(s) && E <= s.edges && Acyclic(E) && !Reaches(E, c, p)
    requires p in refs && c in refs && s.refs.Keys <= refs.Keys
    requires holes !! refs.Keys
    ensures Inv(State(AddDentry(E, p, n, c), refs, holes))
  {
    ReplaceNameAcyclic(E, p, n, c);
  }

  /** A fresh inode number reaches nothing. */
  lemma UncachedReachesNothing(s: State, E: set<Edge>, i: Ino, p: Ino)
    requires WellFormed(s) && E <= s.edges && i != p
    requires i !in s.refs || E == WithoutInode(s.edges, i)
    ensures !Reaches(E, i, p)
  {
    if Reaches(E, i, p) {
      NothingBelow(E, i, p);
    }
  }

  lemma LookupKeepsInv(s: State, op: Op)
    requires Inv(s) && op.Lookup? && Sound(s, op)
    ensures Inv(Step(s, op).state)
  {
    if op.perm && Attached(s.edges, op.parent) && op.st.Some? && Find(s.edges, op.parent, op.name).None? {
      var i := op.st.value;
      UncachedReachesNothing(s, s.edges, i, op.parent);
      AddDentryInv(s, s.edges, op.parent, op.name, i, s.refs[i := 1], s.holes - {i});
    }
  }

  lemma ForgetKeepsInv(s: State, op: Op)
    requires Inv(s) && op.Forget?
    ensures Inv(Step(s, op).state)
  {
    AcyclicSubset(WithoutInode(s.edges, op.ino), s.edges);
  }

  lemma CreateKeepsInv(s: State, op: Op)
    requires Inv(s) && op.Create? && Sound(s, op)
    ensures Inv(Step(s, op).state)
  {
    var i := op.ino;
    var E := if i in s.refs then WithoutInode(s.edges, i) else s.edges;
    AcyclicSubset(E, s.edges);
    UncachedReachesNothing(s, E, i, op.parent);
    AddDentryInv(s, E, op.parent, op.name, i, Step(s, op).state.refs, s.holes);
  }

  /** A rename keeps the graph acyclic exactly when the moved inode does not lead to its new directory. */
  lemma RenameAcyclicIff(s: State, p: Ino, n: string, q: Ino, m: string, c: Ino)
    requires Inv(s) && Find(s.edges, p, n) == Some(c)
    ensures Acyclic(Step(s, Rename(p, n, q, m)).state.edges) <==> MoveIsSound(s.edges, p, n, q, m, c)
  {
    var F := WithoutName(WithoutName(s.edges, q, m), p, n);
    AcyclicSubset(F, s.edges);
    var E := Step(s, Rename(p, n, q, m)).state.edges;
    if (p, n) == (q, m) {
      assert E == F;
    } else {
      assert E == F + {Edge(q, m, c)};
      AddEdgeAcyclic(F, Edge(q, m, c));
    }
  }

  lemma RenameKeepsInv(s: State, op: Op)
    requires Inv(s) && op.Rename? && Sound(s, op)
    ensures Inv(Step(s, op).state)
  {
    var f := Find(s.edges, op.parent, op.name);
    if f.Some? {
      RenameAcyclicIff(s, op.parent, op.name, op.newparent, op.newname, f.value);
    }
  }

  /** Every sound request keeps the cache well formed and its graph acyclic. */
  lemma StepKeepsInv(s: State, op: Op)
    requires Inv(s) && Sound(s, op)
    ensures Inv(Step(s, op).state)
  {
    match op
    case Lookup(_, _, _, _) => LookupKeepsInv(s, op);
    case Forget(_, _) => ForgetKeepsInv(s, op);
    case Create(_, _, _) => CreateKeepsInv(s, op);
    case Unlink(p, n) => AcyclicSubset(WithoutName(s.edges, p, n), s.edges);
    case Rename(_, _, _, _) => RenameKeepsInv(s, op);
    case Link(i, p, n) => LinkAcyclicIff(s, i, p, n);
  }

  // -------------------------------------------------- exact side conditions

  /** Linking keeps the graph acyclic exactly when, the old name gone, the directory is not below the linked inode. */
  lemma LinkAcyclicIff(s: State, i: Ino, p: Ino, n: string)
    requires Inv(s) && i in s.refs && p in s.refs
    ensures Acyclic(Step(s, Link(i, p, n)).state.edges) <==> !Reaches(WithoutName(s.edges, p, n), i, p)
  {
    AcyclicSubset(WithoutName(s.edges, p, n), s.edges);
    AddEdgeAcyclic(WithoutName(s.edges, p, n), Edge(p, n, i));
  }

  /** Creating keeps the graph acyclic exactly when the new inode number is not that of its directory. */
  lemma CreateAcyclicIff(s: State, p: Ino, n: string, i: Ino)
    requires Inv(s) && p in s.refs && i !in s.holes
    ensures Acyclic(Step(s, Create(p, n, i)).state.edges) <==> i != p
  {
    if i != p {
      CreateKeepsInv(s, Create(p, n, i));
    } else {
      var E := Step(s, Create(p, n, i)).state.edges;
      ReachesSelf(E, p);
      assert Edge(p, n, p) in E;
    }
  }

  /**
   After a rename the inode is found under its new name exactly when the two
   names differ: renaming a cached name onto itself drops it from the cache.
   */
  lemma RenameLandsIff(s: State, p: Ino, n: string, q: Ino, m: string, c: Ino)
    requires Inv(s) && Find(s.edges, p, n) == Some(c)
    ensures var t := Step(s, Rename(p, n, q, m)).state;
            && (Find(t.edges, q, m) == Some(c) <==> (p, n) != (q, m))
            && Find(t.edges, p, n) == None
            && forall d: Ino, o: string ::
                 (d, o) != (p, n) && (d, o) != (q, m) ==> Find(t.edges, d, o) == Find(s.edges, d, o)
  {
    var t := Step(s, Rename(p, n, q, m)).state;
    if (p, n) != (q, m) {
      assert Edge(q, m, c) in t.edges;
      var f := Find(t.edges, q, m);
      assert Edge(q, m, f.value) in t.edges;
    }
    forall d: Ino, o: string | (d, o) != (p, n) && (d, o) != (q, m) ensures Find(t.edges, d, o) == Find(s.edges, d, o) {
      var f, g := Find(t.edges, d, o), Find(s.edges, d, o);
      if g.Some? {
        assert Edge(d, o, g.value) in t.edges;
        assert Edge(d, o, f.value) in s.edges;
      }
    }
  }

  /** After an unlink the name finds nothing, every other name what it found before, and no count has changed. */
  lemma UnlinkLands(s: State, p: Ino, n: string)
    requires Inv(s)
    ensures var t := Step(s, Unlink(p, n)).state;
            && Find(t.edges, p, n) == None
            && (forall d: Ino, o: string :: (d, o) != (p, n) ==> Find(t.edges, d, o) == Find(s.edges, d, o))
            && t.refs == s.refs && t.holes == s.holes
  {
    var t := Step(s, Unlink(p, n)).state;
    forall d: Ino, o: string | (d, o) != (p, n) ensures Find(t.edges, d, o) == Find(s.edges, d, o) {
      FindIsEdge(s.edges, d, o);
      FindIsEdge(t.edges, d, o);
    }
  }

  /** A permitted lookup in an attached directory hands out the number its lstat found. */
  lemma LookupReplies(s: State, p: Ino, n: string, perm: bool, st: Option<Ino>)
    requires Inv(s) && Sound(s, Lookup(p, n, perm, st))
    ensures Step(s, Lookup(p, n, perm, st)).reply == if perm && Attached(s.edges, p) then st else None
  {
    var f := Find(s.edges, p, n);
    assert f.Some? ==> Edge(p, n, f.value) in s.edges;
  }

  /**
   A forget, however large, subtracts in a 32-bit int: what is left is congruent
   to the difference, and the inode goes exactly when that is not positive.
   */
  lemma ForgetWraps(s: State, i: Ino, n: nat) returns (r: int, q: int)
    requires i != ROOT_INO && i in s.refs
    ensures s.refs[i] - n == r + q * 0x1_0000_0000 && -0x8000_0000 <= r < 0x8000_0000
    ensures var t := Step(s, Forget(i, n)).state;
            if r <= 0 then t.refs == s.refs - {i} && t.edges == WithoutInode(s.edges, i)
            else t.refs == s.refs[i := r] && t.edges == s.edges
  {
    var d := s.refs[i] - n;
    r := ToInt32(d);
    q := (d + INT_LIMIT) / (2 * INT_LIMIT);
  }

  /** Asking for an inode that is not cached leaves a null entry, and nothing else. */
  lemma ForgetUnknown(s: State, i: Ino, n: nat)
    requires i != ROOT_INO && i !in s.refs
    ensures Step(s, Forget(i, n)) == Outcome(State(s.edges, s.refs, s.holes + {i}), None)
  {
  }

  // --------------------------------------------------------------- runs

  /** The state after a whole run of requests from a fresh mount. */
  ghost function After(ops: seq<Op>): State {
    if ops == [] then Initial() else Step(After(ops[..|ops| - 1]), ops[|ops| - 1]).state
  }

  /** How many entries for the inode the run handed to the kernel. */
  ghost function Handed(ops: seq<Op>, i: Ino): nat {
    if ops == [] then 0
    else
      var before := ops[..|ops| - 1];
      Handed(before, i) + if Step(After(before), ops[|ops| - 1]).reply == Some(i) then 1 else 0
  }

  /** How many lookups of the inode the kernel has forgotten over the run. */
  ghost function Forgotten(ops: seq<Op>, i: Ino): nat {
    if ops == [] then 0
    else
      var op := ops[|ops| - 1];
      Forgotten(ops[..|ops| - 1], i) + if op.Forget? && op.ino == i then op.nlookup else 0
  }

  ghost function Outstanding(ops: seq<Op>, i: Ino): int {
    Handed(ops, i) - Forgotten(ops, i)
  }

  /** The kernel only forgets an inode it holds, never more often than it holds it, and its count fits an `int`. */
  ghost predicate FairForget(ops: seq<Op>, op: Op) {
    op.Forget? && op.ino != ROOT_INO ==>
      0 < Outstanding(ops, op.ino) < INT_LIMIT && op.nlookup <= Outstanding(ops, op.ino)
  }

  ghost predicate FairRun(ops: seq<Op>) {
    ops != [] ==>
      var before, op := ops[..|ops| - 1], ops[|ops| - 1];
      FairRun(before) && Sound(After(before), op) && FairForget(before, op)
  }

  /** The reference count of an inode, 0 when it is not cached. */
  ghost function Count(s: State, i: Ino): int {
    if i in s.refs then s.refs[i] else 0
  }

  /** The cache holds exactly what the kernel holds, with the same count. */
  ghost predicate Conserves(s: State, ops: seq<Op>, i: Ino) {
    && Count(s, i) == Outstanding(ops, i) >= 0
    && (i in s.refs <==> Outstanding(ops, i) > 0)
  }

  /** What one request does to one count: an entry handed out adds one, a forget subtracts, zero evicts. */
  lemma StepCounts(s: State, op: Op, i: Ino)
    requires Inv(s) && Sound(s, op) && i != ROOT_INO
    requires i in s.refs ==> s.refs[i] > 0
    requires op.Forget? && op.ino == i ==> op.nlookup <= Count(s, i) < INT_LIMIT
    ensures var (t, reply) := (Step(s, op).state, Step(s, op).reply);
            && Count(t, i) == Count(s, i) + (if reply == Some(i) then 1 else 0)
                              - (if op.Forget? && op.ino == i then op.nlookup else 0)
            && (i in t.refs <==> Count(t, i) > 0)
  {
    if op.Forget? && op.ino == i {
      assert ToInt32(Count(s, i) - op.nlookup) == Count(s, i) - op.nlookup;
    }
  }

  lemma StepConserves(ops: seq<Op>, op: Op, i: Ino)
    requires Inv(After(ops)) && Sound(After(ops), op) && FairForget(ops, op)
    requires i != ROOT_INO && Conserves(After(ops), ops, i)
    ensures Conserves(After(ops + [op]), ops + [op], i)
  {
    assert (ops + [op])[..|ops|] == ops;
    StepCounts(After(ops), op, i);
  }

  /** No fair request asks inode_map for an inode that is not cached. */
  lemma StepKeepsFull(ops: seq<Op>, op: Op)
    requires After(ops).holes == {} && FairForget(ops, op)
    requires op.Forget? && op.ino != ROOT_INO ==> Conserves(After(ops), ops, op.ino)
    ensures Step(After(ops), op).state.holes == {}
  {
  }

  /**
   Reference conservation over every fair run: the cache is well formed and
   acyclic, holds no null entry, and every inode but the root is cached exactly
   while the entries handed out for it outnumber the lookups forgotten, with
   that difference as its reference count.
   */
  lemma {:induction false} RunConservesReferences(ops: seq<Op>)
    requires FairRun(ops)
    ensures Inv(After(ops)) && After(ops).holes == {}
    ensures forall i :: i != ROOT_INO ==> Conserves(After(ops), ops, i)
    decreases |ops|
  {
    if ops == [] {
      forall i: Ino | i != ROOT_INO ensures Conserves(After(ops), ops, i) {
      }
    } else {
      var before, op := ops[..|ops| - 1], ops[|ops| - 1];
      RunConservesReferences(before);
      assert before + [op] == ops;
      StepKeepsInv(After(before), op);
      StepKeepsFull(before, op);
      forall i: Ino | i != ROOT_INO ensures Conserves(After(ops), ops, i) {
        StepConserves(before, op, i);
      }
    }
  }

  /** Over every fair run make_inode_path ends, and a path it makes leads back to its inode. */
  lemma RunPathsLeadBack(ops: seq<Op>, i: Ino)
    requires FairRun(ops)
    ensures var E := After(ops).edges;
            && Acyclic(E)
            && (PathOf(E, i).Some? <==> Attached(E, i))
            && (PathOf(E, i).Some? ==> Walk(E, ROOT_INO, PathOf(E, i).value) == Some(i))
  {
    RunConservesReferences(ops);
    PathFailsWhenDetached(After(ops).edges, i);
    PathWalksBack(After(ops).edges, i);
  }

  // -------------------------------------------- what a name finds after a run

  /** The kernel holds the inode after the run; it always holds the root. */
  ghost predicate IsHeld(ops: seq<Op>, i: Ino) {
    i == ROOT_INO || Outstanding(ops, i) > 0
  }

  /** What a name found before, unless it led to the inode or was in it. */
  ghost function Without(found: Option<Ino>, p: Ino, i: Ino): Option<Ino> {
    if p == i || found == Some(i) then None else found
  }

  /**
   What a name finds after a run, told from the requests and replies alone: the
   last request that named it decides, unless a later one dropped its directory
   or its inode.
   */
  ghost function Found(ops: seq<Op>, p: Ino, n: string): Option<Ino> {
    if ops == [] then None
    else
      var before, op := ops[..|ops| - 1], ops[|ops| - 1];
      var was := Found(before, p, n);
      match op
      case Lookup(d, o, _, _) =>
        var reply := Step(After(before), op).reply;
        if (d, o) == (p, n) && reply.Some? then reply else was
      case Forget(i, _) => if i == ROOT_INO || IsHeld(ops, i) then was else Without(was, p, i)
      case Create(d, o, i) =>
        if (d, o) == (p, n) then Some(i) else if IsHeld(before, i) then Without(was, p, i) else was
      case Unlink(d, o) => if (d, o) == (p, n) then None else was
      case Rename(d, o, q, m) =>
        var moved := Found(before, d, o);
        if moved.None? then was
        else if (d, o) == (p, n) then None
        else if (q, m) == (p, n) then moved
        else was
      case Link(i, d, o) => if (d, o) == (p, n) then Some(i) else was
  }

  /** A name finds the child of its one edge. */
  lemma FindIsEdge(E: set<Edge>, p: Ino, n: string)
    requires Functional(E)
    ensures forall c: Ino :: Find(E, p, n) == Some(c) <==> Edge(p, n, c) in E
  {
    forall c: Ino ensures Find(E, p, n) == Some(c) <==> Edge(p, n, c) in E {
      var f := Find(E, p, n);
      if Edge(p, n, c) in E && f.Some? {
        assert Edge(p, n, f.value) in E;
      }
    }
  }

  lemma SameFind(E: set<Edge>, p: Ino, n: string, found: Option<Ino>)
    requires Functional(E) && forall c: Ino :: Edge(p, n, c) in E <==> found == Some(c)
    ensures Find(E, p, n) == found
  {
    FindIsEdge(E, p, n);
    var f := Find(E, p, n);
    assert f.Some? ==> Edge(p, n, f.value) in E;
    assert found.Some? ==> Edge(p, n, found.value) in E;
  }

  /** One request moves what a name finds as told. */
  lemma StepFinds(ops: seq<Op>, op: Op, p: Ino, n: string)
    requires FairRun(ops + [op])
    requires forall d: Ino, o: string :: Find(After(ops).edges, d, o) == Found(ops, d, o)
    ensures Find(After(ops + [op]).edges, p, n) == Found(ops + [op], p, n)
  {
    var all := ops + [op];
    assert all[..|ops|] == ops;
    RunConservesReferences(ops);
    RunConservesReferences(all);
    var s, t := After(ops), After(all);
    FindIsEdge(s.edges, p, n);
    if op.Rename? { FindIsEdge(s.edges, op.parent, op.name); }
    if op.Forget? && op.ino != ROOT_INO {
      assert Conserves(s, ops, op.ino) && Conserves(t, all, op.ino);
    }
    if op.Create? && op.ino != ROOT_INO {
      assert Conserves(s, ops, op.ino);
    }
    SameFind(t.edges, p, n, Found(all, p, n));
  }

  /** After every fair run a name finds what the requests and replies tell. */
  lemma {:induction false} RunFinds(ops: seq<Op>, p: Ino, n: string)
    requires FairRun(ops)
    ensures Find(After(ops).edges, p, n) == Found(ops, p, n)
    decreases |ops|
  {
    if ops != [] {
      var before, op := ops[..|ops| - 1], ops[|ops| - 1];
      assert ops == before + [op];
      forall d: Ino, o: string ensures Find(After(before).edges, d, o) == Found(before, d, o) {
        RunFinds(before, d, o);
      }
      StepFinds(before, op, p, n);
    }
  }

  // --------------------------------------------------------- failing runs

  /** A lookup that misses its name keeps the counts in step exactly where it does not find a cached number. */
  lemma MissConservesIff(ops: seq<Op>, op: Op, i: Ino)
    requires op.Lookup? && op.perm && op.st.Some? && i != ROOT_INO && Conserves(After(ops), ops, i)
    requires Attached(After(ops).edges, op.parent) && Find(After(ops).edges, op.parent, op.name).None?
    ensures Conserves(After(ops + [op]), ops + [op], i) <==> op.st != Some(i) || i !in After(ops).refs
  {
    assert (ops + [op])[..|ops|] == ops;
  }

  /** One more request at the end of a run. */
  lemma RunStep(ops: seq<Op>, op: Op, i: Ino)
    ensures After(ops + [op]) == Step(After(ops), op).state
    ensures Outstanding(ops + [op], i) == Outstanding(ops, i)
                                          + (if Step(After(ops), op).reply == Some(i) then 1 else 0)
                                          - (if op.Forget? && op.ino == i then op.nlookup else 0)
    ensures FairRun(ops + [op]) <==> FairRun(ops) && Sound(After(ops), op) && FairForget(ops, op)
  {
    assert (ops + [op])[..|ops|] == ops;
  }

  /** A created file in a directory: the state and what the kernel holds. */
  lemma CreatedFile(ops: seq<Op>, p: Ino, n: string, i: Ino)
    requires p in After(ops).refs && i !in After(ops).refs && i !in After(ops).holes && FairRun(ops)
    requires forall e :: e in After(ops).edges ==> e.parent != p
    ensures var s, t := After(ops), After(ops + [Create(p, n, i)]);
            t.edges == s.edges + {Edge(p, n, i)} && t.refs == s.refs[i := 1] && t.holes == s.holes
    ensures FairRun(ops + [Create(p, n, i)])
    ensures Outstanding(ops + [Create(p, n, i)], i) == Outstanding(ops, i) + 1
  {
    RunStep(ops, Create(p, n, i), i);
    assert WithoutName(After(ops).edges, p, n) == After(ops).edges;
  }

  /** A created file that is then looked up under a second name: the kernel holds it twice, the cache counts it once. */
  lemma SecondNameLosesReference()
    ensures var before, second := [Create(ROOT_INO, "a", 2)], Lookup(ROOT_INO, "b", true, Some(2));
            && FairRun(before)
            && Outstanding(before + [second], 2) == 2 && Count(After(before + [second]), 2) == 1
  {
    var before, second := [Create(ROOT_INO, "a", 2)], Lookup(ROOT_INO, "b", true, Some(2));
    assert before == [] + before;
    CreatedFile([], ROOT_INO, "a", 2);
    var E := After(before).edges;
    assert ClimbsTo(E, ROOT_INO, ROOT_INO, [ROOT_INO]);
    assert Find(E, ROOT_INO, "b").None?;
    RunStep(before, second, 2);
  }

  /** A directory forgotten before the file in it, whose key does not read back: a fair run that loses the key. */
  lemma ParentFirstLosesKey()
    ensures var before := [Create(ROOT_INO, "d", 2), Create(2, "f", 3)];
            && FairRun(before + [Forget(2, 1)])
            && !KeysRead(After(before), Forget(2, 1), map["f" := ""])
  {
    var first := [Create(ROOT_INO, "d", 2)];
    assert first == [] + first;
    CreatedFile([], ROOT_INO, "d", 2);
    CreatedFile(first, 2, "f", 3);
    var before := first + [Create(2, "f", 3)];
    assert before == [Create(ROOT_INO, "d", 2), Create(2, "f", 3)];
    RunStep(first, Create(2, "f", 3), 2);
    RunStep(before, Forget(2, 1), 2);
    assert !KeyIsRead(After(before).edges, Edge(2, "f", 3), map["f" := ""]);
  }
}
