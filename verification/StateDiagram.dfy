/**
 The drawing half of the state-diagram generator: a tree of states is written
 as nested clusters, and an edge between states is attached to leaves inside
 the clusters it names.
 */
module StateDiagram {
  import opened Options

  /** A finite tree of states, as the generator finds it under the top-level machine. */
  datatype Tree = Tree(name: string, children: seq<Tree>)

  /** The dictionary `state_contents` spells out the tree; a state without an entry is a leaf. */
  ghost predicate Represents(contents: map<string, seq<string>>, t: Tree)
    decreases t
  {
    && (t.name in contents <==> t.children != [])
    && (t.children != [] ==> contents[t.name] == NamesOf(t.children))
    && forall i :: 0 <= i < |t.children| ==> Represents(contents, t.children[i])
  }

  function NamesOf(ts: seq<Tree>): seq<string> {
    seq(|ts|, i requires 0 <= i < |ts| => ts[i].name)
  }

  // ----------------------------------------------------- the tree's states

  /** The states drawn as clusters, in preorder. */
  function Composites(t: Tree): seq<string>
    decreases t, 0
  {
    if t.children == [] then [] else [t.name] + CompositesIn(t.children)
  }

  function CompositesIn(ts: seq<Tree>): seq<string>
    decreases ts, 1
  {
    if ts == [] then [] else CompositesIn(ts[..|ts| - 1]) + Composites(ts[|ts| - 1])
  }

  function Leaves(t: Tree): seq<string>
    decreases t, 0
  {
    if t.children == [] then [t.name] else LeavesIn(t.children)
  }

  function LeavesIn(ts: seq<Tree>): seq<string>
    decreases ts, 1
  {
    if ts == [] then [] else LeavesIn(ts[..|ts| - 1]) + Leaves(ts[|ts| - 1])
  }

  // --------------------------------------------------------- the drawing

  datatype Text =
    | Open(cluster: nat)
    | Label(state: string)
    | Color
    | Close
    | Node(state: string, initial: bool)

  datatype Line = Line(indent: nat, text: Text)

  /** The first lines of a cluster. */
  function Head(state: string, n: nat, d: nat): seq<Line> {
    [Line(d, Open(n))] + [Line(d + 1, Label(state))] + [Line(d + 1, Color)]
  }

  /** The lines for one state whose first free cluster number is n, at an indentation. */
  function Lines(machines: map<string, string>, t: Tree, n: nat, d: nat): seq<Line>
    decreases t, 0
  {
    if t.children == [] then
      [Line(d, Node(t.name, t.name in machines.Values))]
    else
      Head(t.name, n, d) + LinesIn(machines, t.children, n + 1, d + 1) + [Line(d, Close)]
  }

  function LinesIn(machines: map<string, string>, ts: seq<Tree>, n: nat, d: nat): seq<Line>
    decreases ts, 1
  {
    if ts == [] then []
    else
      var before := ts[..|ts| - 1];
      LinesIn(machines, before, n, d) + Lines(machines, ts[|ts| - 1], n + |CompositesIn(before)|, d)
  }

  /** The cluster of every composite, numbered from n. */
  function Labels(t: Tree, n: nat): map<string, nat>
    decreases t, 0
  {
    if t.children == [] then map[] else map[t.name := n] + LabelsIn(t.children, n + 1)
  }

  function LabelsIn(ts: seq<Tree>, n: nat): map<string, nat>
    decreases ts, 1
  {
    if ts == [] then map[]
    else
      var before := ts[..|ts| - 1];
      LabelsIn(before, n) + Labels(ts[|ts| - 1], n + |CompositesIn(before)|)
  }

  function Tabbed(lines: seq<Line>): (r: seq<Line>)
    ensures |r| == |lines|
  {
    seq(|lines|, i requires 0 <= i < |lines| => Line(lines[i].indent + 1, lines[i].text))
  }

  lemma TabbedConcat(a: seq<Line>, b: seq<Line>)
    ensures Tabbed(a + b) == Tabbed(a) + Tabbed(b)
  {
  }

  lemma TabbedHead(state: string, n: nat, d: nat)
    ensures Tabbed(Head(state, n, d)) == Head(state, n, d + 1)
  {
  }

  lemma {:induction false} TabbedLines(machines: map<string, string>, t: Tree, n: nat, d: nat)
    ensures Tabbed(Lines(machines, t, n, d)) == Lines(machines, t, n, d + 1)
    decreases t, 0
  {
    if t.children != [] {
      TabbedLinesIn(machines, t.children, n + 1, d + 1);
      var inner := LinesIn(machines, t.children, n + 1, d + 1);
      TabbedHead(t.name, n, d);
      TabbedConcat(Head(t.name, n, d), inner);
      TabbedConcat(Head(t.name, n, d) + inner, [Line(d, Close)]);
    }
  }

  lemma {:induction false} TabbedLinesIn(machines: map<string, string>, ts: seq<Tree>, n: nat, d: nat)
    ensures Tabbed(LinesIn(machines, ts, n, d)) == LinesIn(machines, ts, n, d + 1)
    decreases ts, 1
  {
    if ts != [] {
      var before, last := ts[..|ts| - 1], ts[|ts| - 1];
      var m := n + |CompositesIn(before)|;
      TabbedLinesIn(machines, before, n, d);
      TabbedLines(machines, last, m, d);
      TabbedConcat(LinesIn(machines, before, n, d), Lines(machines, last, m, d));
    }
  }

  // ------------------------------------------------- what the drawing shows

  /** Following the lines from a depth: braces are balanced, and every line is indented by its depth. */
  function Depth(lines: seq<Line>, d: nat): Option<nat>
    decreases |lines|
  {
    if lines == [] then Some(d)
    else
      var l, rest := lines[0], lines[1..];
      match l.text
      case Open(_) => if l.indent == d then Depth(rest, d + 1) else None
      case Close => if l.indent + 1 == d then Depth(rest, l.indent) else None
      case _ => if l.indent == d then Depth(rest, d) else None
  }

  lemma {:induction false} DepthConcat(a: seq<Line>, b: seq<Line>, d: nat)
    requires Depth(a, d).Some?
    ensures Depth(a + b, d) == Depth(b, Depth(a, d).value)
    decreases |a|
  {
    if a == [] {
      assert a + b == b;
    } else {
      assert (a + b)[1..] == a[1..] + b;
      match a[0].text
      case Open(_) => DepthConcat(a[1..], b, d + 1);
      case Close => DepthConcat(a[1..], b, a[0].indent);
      case _ => DepthConcat(a[1..], b, d);
    }
  }

  lemma HeadDepth(state: string, n: nat, d: nat)
    ensures Depth(Head(state, n, d), d) == Some(d + 1)
  {
    var a, b, c := Line(d, Open(n)), Line(d + 1, Label(state)), Line(d + 1, Color);
    assert [a][1..] == [] && [b][1..] == [] && [c][1..] == [];
    DepthConcat([a], [b], d);
    DepthConcat([a] + [b], [c], d);
  }

  /** The clusters are properly nested. */
  lemma {:induction false} LinesBalanced(machines: map<string, string>, t: Tree, n: nat, d: nat)
    ensures Depth(Lines(machines, t, n, d), d) == Some(d)
    decreases t, 0
  {
    if t.children == [] {
      var l := Line(d, Node(t.name, t.name in machines.Values));
      assert [l][1..] == [];
    } else {
      var head := Head(t.name, n, d);
      var inner := LinesIn(machines, t.children, n + 1, d + 1);
      HeadDepth(t.name, n, d);
      LinesInBalanced(machines, t.children, n + 1, d + 1);
      DepthConcat(head, inner, d);
      DepthConcat(head + inner, [Line(d, Close)], d);
      assert [Line(d, Close)][1..] == [];
    }
  }

  lemma {:induction false} LinesInBalanced(machines: map<string, string>, ts: seq<Tree>, n: nat, d: nat)
    ensures Depth(LinesIn(machines, ts, n, d), d) == Some(d)
    decreases ts, 1
  {
    if ts != [] {
      var before, last := ts[..|ts| - 1], ts[|ts| - 1];
      var m := n + |CompositesIn(before)|;
      LinesInBalanced(machines, before, n, d);
      LinesBalanced(machines, last, m, d);
      DepthConcat(LinesIn(machines, before, n, d), Lines(machines, last, m, d), d);
    }
  }

  function Nodes(lines: seq<Line>): seq<string> {
    if lines == [] then []
    else Nodes(lines[..|lines| - 1]) + var l := lines[|lines| - 1].text; if l.Node? then [l.state] else []
  }

  function Opens(lines: seq<Line>): seq<nat> {
    if lines == [] then []
    else Opens(lines[..|lines| - 1]) + var l := lines[|lines| - 1].text; if l.Open? then [l.cluster] else []
  }

  function Titles(lines: seq<Line>): seq<string> {
    if lines == [] then []
    else Titles(lines[..|lines| - 1]) + var l := lines[|lines| - 1].text; if l.Label? then [l.state] else []
  }

  lemma {:induction false} ShownConcat(a: seq<Line>, b: seq<Line>)
    ensures Nodes(a + b) == Nodes(a) + Nodes(b)
    ensures Opens(a + b) == Opens(a) + Opens(b)
    ensures Titles(a + b) == Titles(a) + Titles(b)
    decreases |b|
  {
    if b == [] {
      assert a + b == a;
    } else {
      assert (a + b)[..|a + b| - 1] == a + b[..|b| - 1];
      ShownConcat(a, b[..|b| - 1]);
    }
  }

  lemma ShownOne(l: Line)
    ensures Nodes([l]) == if l.text.Node? then [l.text.state] else []
    ensures Opens([l]) == if l.text.Open? then [l.text.cluster] else []
    ensures Titles([l]) == if l.text.Label? then [l.text.state] else []
  {
    assert [l][..0] == [];
  }

  lemma ShownThree(a: seq<Line>, b: seq<Line>, c: seq<Line>)
    ensures Nodes(a + b + c) == Nodes(a) + Nodes(b) + Nodes(c)
    ensures Opens(a + b + c) == Opens(a) + Opens(b) + Opens(c)
    ensures Titles(a + b + c) == Titles(a) + Titles(b) + Titles(c)
  {
    ShownConcat(a, b);
    ShownConcat(a + b, c);
  }

  lemma HeadShows(state: string, n: nat, d: nat)
    ensures Nodes(Head(state, n, d)) == [] && Opens(Head(state, n, d)) == [n] && Titles(Head(state, n, d)) == [state]
  {
    var a, b, c := Line(d, Open(n)), Line(d + 1, Label(state)), Line(d + 1, Color);
    ShownOne(a);
    ShownOne(b);
    ShownOne(c);
    ShownThree([a], [b], [c]);
  }

  /** A cluster adds its number and title in front of what is inside, and no node. */
  lemma ClusterShows(state: string, n: nat, d: nat, inner: seq<Line>)
    ensures var lines := Head(state, n, d) + inner + [Line(d, Close)];
            && Nodes(lines) == Nodes(inner)
            && Opens(lines) == [n] + Opens(inner)
            && Titles(lines) == [state] + Titles(inner)
  {
    HeadShows(state, n, d);
    ShownOne(Line(d, Close));
    ShownThree(Head(state, n, d), inner, [Line(d, Close)]);
  }

  function Range(n: nat, k: nat): (r: seq<nat>)
    ensures |r| == k
  {
    seq(k, i requires 0 <= i < k => n + i)
  }

  lemma RangeJoin(n: nat, j: nat, k: nat)
    ensures Range(n, j) + Range(n + j, k) == Range(n, j + k)
  {
  }

  /**
   The nodes drawn are the leaves, in order; the clusters are titled by the
   composites in preorder and numbered consecutively from n.
   */
  lemma {:induction false} LinesShowTree(machines: map<string, string>, t: Tree, n: nat, d: nat)
    ensures Nodes(Lines(machines, t, n, d)) == Leaves(t)
    ensures Titles(Lines(machines, t, n, d)) == Composites(t)
    ensures Opens(Lines(machines, t, n, d)) == Range(n, |Composites(t)|)
    decreases t, 0
  {
    if t.children == [] {
      ShownOne(Line(d, Node(t.name, t.name in machines.Values)));
    } else {
      LinesInShowTrees(machines, t.children, n + 1, d + 1);
      ClusterShows(t.name, n, d, LinesIn(machines, t.children, n + 1, d + 1));
      RangeJoin(n, 1, |CompositesIn(t.children)|);
      assert Range(n, 1) == [n];
    }
  }

  /** One more tree at the end of a row. */
  lemma RowParts(machines: map<string, string>, ts: seq<Tree>, n: nat, d: nat)
    requires ts != []
    ensures var before, last := ts[..|ts| - 1], ts[|ts| - 1];
            && LinesIn(machines, ts, n, d) ==
               LinesIn(machines, before, n, d) + Lines(machines, last, n + |CompositesIn(before)|, d)
            && CompositesIn(ts) == CompositesIn(before) + Composites(last)
            && LeavesIn(ts) == LeavesIn(before) + Leaves(last)
  {
  }

  /** The lines show these leaves and these composites, numbered from n on. */
  ghost predicate Shows(lines: seq<Line>, leaves: seq<string>, composites: seq<string>, n: nat) {
    Nodes(lines) == leaves && Titles(lines) == composites && Opens(lines) == Range(n, |composites|)
  }

  lemma ShowsBoth(a: seq<Line>, b: seq<Line>, l: seq<string>, m: seq<string>, c: seq<string>, d: seq<string>, n: nat)
    requires Shows(a, l, c, n) && Shows(b, m, d, n + |c|)
    ensures Shows(a + b, l + m, c + d, n)
  {
    ShownConcat(a, b);
    RangeJoin(n, |c|, |d|);
  }

  lemma {:induction false} LinesInShowTrees(machines: map<string, string>, ts: seq<Tree>, n: nat, d: nat)
    ensures Shows(LinesIn(machines, ts, n, d), LeavesIn(ts), CompositesIn(ts), n)
    decreases ts, 1
  {
    if ts != [] {
      var before, last := ts[..|ts| - 1], ts[|ts| - 1];
      var m := n + |CompositesIn(before)|;
      LinesInShowTrees(machines, before, n, d);
      LinesShowTree(machines, last, m, d);
      RowParts(machines, ts, n, d);
      ShowsBoth(LinesIn(machines, before, n, d), Lines(machines, last, m, d), LeavesIn(before), Leaves(last),
                CompositesIn(before), Composites(last), n);
    }
  }

  predicate Distinct(names: seq<string>) {
    forall i, j :: 0 <= i < j < |names| ==> names[i] != names[j]
  }

  lemma DistinctParts(a: seq<string>, b: seq<string>)
    requires Distinct(a + b)
    ensures Distinct(a) && Distinct(b)
  {
    var c := a + b;
    assert forall i :: 0 <= i < |a| ==> c[i] == a[i];
    assert forall j :: 0 <= j < |b| ==> c[|a| + j] == b[j];
  }

  lemma DistinctHalves(a: seq<string>, b: seq<string>, x: string)
    requires Distinct(a + b) && x in a
    ensures x !in b
  {
    var c := a + b;
    var i :| 0 <= i < |a| && a[i] == x;
    assert c[i] == x;
    forall j | 0 <= j < |b| ensures b[j] != x {
      assert c[|a| + j] == b[j];
    }
  }

  /** The k-th composite in preorder has cluster n + k. */
  ghost predicate Numbers(labels: map<string, nat>, names: seq<string>, n: nat) {
    && labels.Keys == (set c | c in names)
    && forall k :: 0 <= k < |names| ==> labels[names[k]] == n + k
  }

  lemma NumbersJoin(l: map<string, nat>, a: seq<string>, m: map<string, nat>, b: seq<string>, n: nat)
    requires Distinct(a + b) && Numbers(l, a, n) && Numbers(m, b, n + |a|)
    ensures Numbers(l + m, a + b, n)
  {
    forall k | 0 <= k < |a + b| ensures (a + b)[k] in l + m && (l + m)[(a + b)[k]] == n + k {
      if k < |a| {
        DistinctHalves(a, b, a[k]);
      } else {
        assert (a + b)[k] == b[k - |a|];
      }
    }
  }

  /** When the composites have distinct names, clusterlabel maps them to consecutive numbers in preorder. */
  lemma {:induction false} LabelsNumberComposites(t: Tree, n: nat)
    requires Distinct(Composites(t))
    ensures Numbers(Labels(t, n), Composites(t), n)
    decreases t, 0
  {
    if t.children != [] {
      DistinctParts([t.name], CompositesIn(t.children));
      LabelsInNumberComposites(t.children, n + 1);
      NumbersJoin(map[t.name := n], [t.name], LabelsIn(t.children, n + 1), CompositesIn(t.children), n);
    }
  }

  lemma {:induction false} LabelsInNumberComposites(ts: seq<Tree>, n: nat)
    requires Distinct(CompositesIn(ts))
    ensures Numbers(LabelsIn(ts, n), CompositesIn(ts), n)
    decreases ts, 1
  {
    if ts != [] {
      var before, last := ts[..|ts| - 1], ts[|ts| - 1];
      DistinctParts(CompositesIn(before), Composites(last));
      LabelsInNumberComposites(before, n);
      LabelsNumberComposites(last, n + |CompositesIn(before)|);
      NumbersJoin(LabelsIn(before, n), CompositesIn(before),
                  Labels(last, n + |CompositesIn(before)|), Composites(last), n);
    }
  }

  // ---------------------------------------------------------- subtrees

  ghost predicate IsSubtree(t: Tree, sub: Tree)
    decreases t
  {
    t == sub || exists i :: 0 <= i < |t.children| && IsSubtree(t.children[i], sub)
  }

  /** The lines of a subtree stand together in the drawing, as the cluster the labels give it. */
  ghost predicate DrawnAs(lines: seq<Line>, machines: map<string, string>, sub: Tree, cluster: nat) {
    exists pre, post, d :: lines == pre + Lines(machines, sub, cluster, d) + post
  }

  lemma DrawnAfter(a: seq<Line>, inner: seq<Line>, machines: map<string, string>, sub: Tree, cluster: nat)
    requires DrawnAs(inner, machines, sub, cluster)
    ensures DrawnAs(a + inner, machines, sub, cluster)
  {
    var pre, post, d :| inner == pre + Lines(machines, sub, cluster, d) + post;
    var own := Lines(machines, sub, cluster, d);
    assert a + (pre + own + post) == (a + pre) + own + post;
  }

  lemma DrawnBefore(inner: seq<Line>, b: seq<Line>, machines: map<string, string>, sub: Tree, cluster: nat)
    requires DrawnAs(inner, machines, sub, cluster)
    ensures DrawnAs(inner + b, machines, sub, cluster)
  {
    var pre, post, d :| inner == pre + Lines(machines, sub, cluster, d) + post;
    var own := Lines(machines, sub, cluster, d);
    assert (pre + own + post) + b == pre + own + (post + b);
  }

  lemma {:induction false} SubtreeIsDrawn(machines: map<string, string>, t: Tree, n: nat, d: nat, sub: Tree)
    requires IsSubtree(t, sub) && sub.children != [] && Distinct(Composites(t))
    ensures sub.name in Labels(t, n) && DrawnAs(Lines(machines, t, n, d), machines, sub, Labels(t, n)[sub.name])
    decreases t, 0
  {
    if t == sub {
      LabelsNumberComposites(t, n);
      assert Composites(t)[0] == t.name;
      assert Lines(machines, t, n, d) == [] + Lines(machines, sub, n, d) + [];
    } else {
      var i :| 0 <= i < |t.children| && IsSubtree(t.children[i], sub);
      DistinctParts([t.name], CompositesIn(t.children));
      SubtreeIsDrawnIn(machines, t.children, n + 1, d + 1, i, sub);
      var head, inner := Head(t.name, n, d), LinesIn(machines, t.children, n + 1, d + 1);
      var cluster := LabelsIn(t.children, n + 1)[sub.name];
      DrawnAfter(head, inner, machines, sub, cluster);
      DrawnBefore(head + inner, [Line(d, Close)], machines, sub, cluster);
    }
  }

  /** A name that is already labelled is not labelled again further on. */
  lemma LabelledOnce(before: seq<Tree>, last: Tree, n: nat, name: string)
    requires Distinct(CompositesIn(before) + Composites(last)) && name in LabelsIn(before, n)
    ensures name !in Labels(last, n + |CompositesIn(before)|)
  {
    LabelKeysIn(before, n);
    LabelKeys(last, n + |CompositesIn(before)|);
    DistinctHalves(CompositesIn(before), Composites(last), name);
  }

  ghost predicate HasKeys(labels: map<string, nat>, names: seq<string>) {
    forall c :: c in labels <==> c in names
  }

  lemma KeysJoin(l: map<string, nat>, a: seq<string>, m: map<string, nat>, b: seq<string>)
    requires HasKeys(l, a) && HasKeys(m, b)
    ensures HasKeys(l + m, a + b)
  {
  }

  lemma {:induction false} LabelKeys(t: Tree, n: nat)
    ensures HasKeys(Labels(t, n), Composites(t))
    decreases t, 0
  {
    if t.children != [] {
      LabelKeysIn(t.children, n + 1);
      KeysJoin(map[t.name := n], [t.name], LabelsIn(t.children, n + 1), CompositesIn(t.children));
    }
  }

  lemma {:induction false} LabelKeysIn(ts: seq<Tree>, n: nat)
    ensures HasKeys(LabelsIn(ts, n), CompositesIn(ts))
    decreases ts, 1
  {
    if ts != [] {
      var before, last := ts[..|ts| - 1], ts[|ts| - 1];
      var m := n + |CompositesIn(before)|;
      LabelKeysIn(before, n);
      LabelKeys(last, m);
      KeysJoin(LabelsIn(before, n), CompositesIn(before), Labels(last, m), Composites(last));
    }
  }

  /** What is drawn for the last tree is drawn in the row, under the same label. */
  lemma DrawnLate(machines: map<string, string>, before: seq<Tree>, last: Tree, n: nat, d: nat, sub: Tree)
    requires var m := n + |CompositesIn(before)|;
             && sub.name in Labels(last, m)
             && DrawnAs(Lines(machines, last, m, d), machines, sub, Labels(last, m)[sub.name])
    ensures var ts := before + [last];
            && sub.name in LabelsIn(ts, n)
            && DrawnAs(LinesIn(machines, ts, n, d), machines, sub, LabelsIn(ts, n)[sub.name])
  {
    var m := n + |CompositesIn(before)|;
    assert (before + [last])[..|before|] == before;
    DrawnAfter(LinesIn(machines, before, n, d), Lines(machines, last, m, d), machines, sub, Labels(last, m)[sub.name]);
  }

  /** What is drawn for the trees before it as well. */
  lemma DrawnEarly(machines: map<string, string>, before: seq<Tree>, last: Tree, n: nat, d: nat, sub: Tree)
    requires Distinct(CompositesIn(before) + Composites(last)) && sub.name in LabelsIn(before, n)
    requires DrawnAs(LinesIn(machines, before, n, d), machines, sub, LabelsIn(before, n)[sub.name])
    ensures var ts := before + [last];
            && sub.name in LabelsIn(ts, n)
            && DrawnAs(LinesIn(machines, ts, n, d), machines, sub, LabelsIn(ts, n)[sub.name])
  {
    var m := n + |CompositesIn(before)|;
    assert (before + [last])[..|before|] == before;
    LabelledOnce(before, last, n, sub.name);
    DrawnBefore(LinesIn(machines, before, n, d), Lines(machines, last, m, d), machines, sub,
                LabelsIn(before, n)[sub.name]);
  }

  lemma {:induction false} SubtreeIsDrawnIn(machines: map<string, string>, ts: seq<Tree>, n: nat, d: nat,
                                           i: nat, sub: Tree)
    requires i < |ts| && IsSubtree(ts[i], sub) && sub.children != [] && Distinct(CompositesIn(ts))
    ensures sub.name in LabelsIn(ts, n)
    ensures DrawnAs(LinesIn(machines, ts, n, d), machines, sub, LabelsIn(ts, n)[sub.name])
    decreases ts, 1
  {
    var before, last := ts[..|ts| - 1], ts[|ts| - 1];
    DistinctParts(CompositesIn(before), Composites(last));
    assert ts == before + [last];
    if i == |ts| - 1 {
      SubtreeIsDrawn(machines, last, n + |CompositesIn(before)|, d, sub);
      DrawnLate(machines, before, last, n, d, sub);
    } else {
      SubtreeIsDrawnIn(machines, before, n, d, i, sub);
      DrawnEarly(machines, before, last, n, d, sub);
    }
  }

  lemma {:induction false} SubtreeTransitive(t: Tree, u: Tree, v: Tree)
    requires IsSubtree(t, u) && IsSubtree(u, v)
    ensures IsSubtree(t, v)
    decreases t
  {
    if t != u {
      var i :| 0 <= i < |t.children| && IsSubtree(t.children[i], u);
      SubtreeTransitive(t.children[i], u, v);
    }
  }

  lemma {:induction false} SubtreeRepresented(contents: map<string, seq<string>>, t: Tree, u: Tree)
    requires Represents(contents, t) && IsSubtree(t, u)
    ensures Represents(contents, u)
    decreases t
  {
    if t != u {
      var i :| 0 <= i < |t.children| && IsSubtree(t.children[i], u);
      SubtreeRepresented(contents, t.children[i], u);
    }
  }

  lemma {:induction false} LeafOfSubtree(t: Tree, u: Tree)
    requires IsSubtree(t, u) && u.children == []
    ensures u.name in Leaves(t)
    decreases t, 0
  {
    if t != u {
      var i :| 0 <= i < |t.children| && IsSubtree(t.children[i], u);
      LeafOfSubtree(t.children[i], u);
      LeafAmong(t.children, i, u.name);
    }
  }

  /** A leaf's name has no entry in `state_contents`. */
  lemma {:induction false} LeavesHaveNoContents(contents: map<string, seq<string>>, t: Tree)
    requires Represents(contents, t)
    ensures forall l :: l in Leaves(t) ==> l !in contents
    decreases t, 0
  {
    if t.children != [] {
      LeavesInHaveNoContents(contents, t.children);
    }
  }

  lemma {:induction false} LeavesInHaveNoContents(contents: map<string, seq<string>>, ts: seq<Tree>)
    requires forall i :: 0 <= i < |ts| ==> Represents(contents, ts[i])
    ensures forall l :: l in LeavesIn(ts) ==> l !in contents
    decreases ts, 1
  {
    if ts != [] {
      LeavesInHaveNoContents(contents, ts[..|ts| - 1]);
      LeavesHaveNoContents(contents, ts[|ts| - 1]);
    }
  }

  lemma {:induction false} LeafAmong(ts: seq<Tree>, i: nat, leaf: string)
    requires i < |ts| && leaf in Leaves(ts[i])
    ensures leaf in LeavesIn(ts)
    decreases |ts|
  {
    if i < |ts| - 1 {
      LeafAmong(ts[..|ts| - 1], i, leaf);
    }
  }

  // ------------------------------------------------------- initial states

  /** A node is drawn as a diamond exactly when it is the initial state of some machine. */
  ghost predicate IsMarked(machines: map<string, string>, l: Line) {
    l.text.Node? ==> (l.text.initial <==> exists m :: m in machines && machines[m] == l.text.state)
  }

  lemma {:induction false} NodesAreMarked(machines: map<string, string>, t: Tree, n: nat, d: nat)
    ensures forall i :: 0 <= i < |Lines(machines, t, n, d)| ==> IsMarked(machines, Lines(machines, t, n, d)[i])
    decreases t, 0
  {
    if t.children != [] {
      NodesAreMarkedIn(machines, t.children, n + 1, d + 1);
    }
  }

  lemma {:induction false} NodesAreMarkedIn(machines: map<string, string>, ts: seq<Tree>, n: nat, d: nat)
    ensures forall i :: 0 <= i < |LinesIn(machines, ts, n, d)| ==> IsMarked(machines, LinesIn(machines, ts, n, d)[i])
    decreases ts, 1
  {
    if ts != [] {
      var before, last := ts[..|ts| - 1], ts[|ts| - 1];
      NodesAreMarkedIn(machines, before, n, d);
      NodesAreMarked(machines, last, n + |CompositesIn(before)|, d);
    }
  }

  ghost predicate InTree(t: Tree, state: string) {
    exists sub :: IsSubtree(t, sub) && sub.name == state
  }

  /** Every machine's initial state is one of its own children. */
  ghost predicate InitialIsChild(contents: map<string, seq<string>>, machines: map<string, string>) {
    forall m :: m in machines ==> m in contents && machines[m] in contents[m]
  }

  /** Each state of the chain but the last is a machine, and the next one its initial state. */
  ghost predicate IsDescent(machines: map<string, string>, chain: seq<string>) {
    forall i :: 0 <= i < |chain| - 1 ==> chain[i] in machines && chain[i + 1] == machines[chain[i]]
  }

  /** The child with the name. */
  ghost function ChildNamed(ts: seq<Tree>, name: string): (c: Tree)
    requires name in NamesOf(ts)
    ensures c in ts && c.name == name
  {
    var i :| 0 <= i < |ts| && NamesOf(ts)[i] == name;
    ts[i]
  }

  /** Where the descent through initial states from a state ends. */
  ghost function Resolved(contents: map<string, seq<string>>, machines: map<string, string>, t: Tree): Tree
    requires Represents(contents, t) && InitialIsChild(contents, machines)
    decreases t
  {
    if t.name in machines then Resolved(contents, machines, ChildNamed(t.children, machines[t.name])) else t
  }

  /** The descent stays inside the state it starts from. */
  lemma {:induction false} ResolvedIsInside(contents: map<string, seq<string>>, machines: map<string, string>, t: Tree)
    requires Represents(contents, t) && InitialIsChild(contents, machines)
    ensures var u := Resolved(contents, machines, t);
            IsSubtree(t, u) && u.name !in machines && Represents(contents, u)
    decreases t
  {
    if t.name in machines {
      var c := ChildNamed(t.children, machines[t.name]);
      ResolvedIsInside(contents, machines, c);
      assert IsSubtree(c, c);
      SubtreeTransitive(t, c, Resolved(contents, machines, c));
    }
  }

  /** Every machine of the tree leads to a leaf inside itself. */
  ghost predicate AllResolveToLeaves(contents: map<string, seq<string>>, machines: map<string, string>, t: Tree)
    requires Represents(contents, t) && InitialIsChild(contents, machines)
  {
    forall sub :: IsSubtree(t, sub) && sub.name in machines ==>
      (SubtreeRepresented(contents, t, sub); Resolved(contents, machines, sub).name in Leaves(sub))
  }

  /** An initial state that has states inside names an initial one of its own. */
  ghost predicate InitialsLead(contents: map<string, seq<string>>, machines: map<string, string>, t: Tree) {
    forall m :: m in machines && InTree(t, m) && machines[m] in contents ==> machines[m] in machines
  }

  lemma {:induction false} ResolvedIsLeaf(contents: map<string, seq<string>>, machines: map<string, string>, t: Tree)
    requires Represents(contents, t) && InitialIsChild(contents, machines) && InitialsLead(contents, machines, t)
    requires t.name in contents ==> t.name in machines
    ensures Resolved(contents, machines, t).children == []
    decreases t
  {
    if t.name in machines {
      var c := ChildNamed(t.children, machines[t.name]);
      assert IsSubtree(t, t) && IsSubtree(c, c) && InTree(t, t.name);
      forall m | m in machines && InTree(c, m) ensures InTree(t, m) {
        var sub :| IsSubtree(c, sub) && sub.name == m;
        SubtreeTransitive(t, c, sub);
      }
      ResolvedIsLeaf(contents, machines, c);
    }
  }

  /** One machine leads to a leaf inside itself when the initial states below it lead on. */
  lemma MachineResolves(contents: map<string, seq<string>>, machines: map<string, string>, t: Tree, sub: Tree)
    requires Represents(contents, t) && InitialIsChild(contents, machines) && InitialsLead(contents, machines, t)
    requires IsSubtree(t, sub) && sub.name in machines
    ensures Represents(contents, sub) && Resolved(contents, machines, sub).name in Leaves(sub)
  {
    SubtreeRepresented(contents, t, sub);
    forall m | m in machines && InTree(sub, m) ensures InTree(t, m) {
      var s :| IsSubtree(sub, s) && s.name == m;
      SubtreeTransitive(t, sub, s);
    }
    ResolvedIsLeaf(contents, machines, sub);
    ResolvedIsInside(contents, machines, sub);
    LeafOfSubtree(sub, Resolved(contents, machines, sub));
  }

  /**
   Every machine of the tree leads to a leaf inside itself exactly when no
   initial state has states inside without naming an initial one among them.
   */
  lemma AllResolveToLeavesIff(contents: map<string, seq<string>>, machines: map<string, string>, t: Tree)
    requires Represents(contents, t) && InitialIsChild(contents, machines)
    ensures AllResolveToLeaves(contents, machines, t) <==> InitialsLead(contents, machines, t)
  {
    if InitialsLead(contents, machines, t) {
      forall sub | IsSubtree(t, sub) && sub.name in machines
        ensures Represents(contents, sub) && Resolved(contents, machines, sub).name in Leaves(sub)
      {
        MachineResolves(contents, machines, t, sub);
      }
    } else {
      var m :| m in machines && InTree(t, m) && machines[m] in contents && machines[m] !in machines;
      var sub :| IsSubtree(t, sub) && sub.name == m;
      SubtreeRepresented(contents, t, sub);
      LeavesHaveNoContents(contents, sub);
      assert Resolved(contents, machines, sub).name == machines[m];
    }
  }

  /** A row of one tree. */
  lemma OneTree(t: Tree)
    ensures NamesOf([t]) == [t.name] && CompositesIn([t]) == Composites(t)
  {
    assert [t][..0] == [];
  }

  /** A machine whose initial state has a state inside, but names no initial one. */
  lemma InitialWithoutInitial()
    ensures var contents, machines := map["A" := ["B"], "B" := ["C"]], map["A" := "B"];
            var t := Tree("A", [Tree("B", [Tree("C", [])])]);
            && Represents(contents, t) && InitialIsChild(contents, machines) && Distinct(Composites(t))
            && Resolved(contents, machines, t).name == "B" && "B" !in Leaves(t)
  {
    var c := Tree("C", []);
    var b := Tree("B", [c]);
    var t := Tree("A", [b]);
    var contents, machines := map["A" := ["B"], "B" := ["C"]], map["A" := "B"];
    OneTree(c);
    OneTree(b);
    assert Represents(contents, c);
    assert Represents(contents, b);
    assert Represents(contents, t);
    assert Composites(b) == ["B"];
    assert Composites(t) == ["A", "B"];
    LeavesHaveNoContents(contents, t);
    assert Resolved(contents, machines, t) == ChildNamed(t.children, "B");
  }

  lemma {:induction false} LeafIsInTree(t: Tree, leaf: string)
    requires leaf in Leaves(t)
    ensures InTree(t, leaf)
    decreases t, 0
  {
    if t.children == [] {
      assert IsSubtree(t, t);
    } else {
      var i := LeafIsIn(t.children, leaf);
      LeafIsInTree(t.children[i], leaf);
      var sub :| IsSubtree(t.children[i], sub) && sub.name == leaf;
      assert IsSubtree(t, sub);
    }
  }

  lemma {:induction false} LeafIsIn(ts: seq<Tree>, leaf: string) returns (i: nat)
    requires leaf in LeavesIn(ts)
    ensures i < |ts| && leaf in Leaves(ts[i])
    decreases |ts|
  {
    if leaf in Leaves(ts[|ts| - 1]) {
      i := |ts| - 1;
    } else {
      i := LeafIsIn(ts[..|ts| - 1], leaf);
    }
  }

  /** A state is drawn as a node exactly when it is in the tree and has no states inside. */
  lemma DrawnAsNodeIff(contents: map<string, seq<string>>, t: Tree, state: string)
    requires Represents(contents, t)
    ensures state in Leaves(t) <==> InTree(t, state) && state !in contents
  {
    LeavesHaveNoContents(contents, t);
    if state in Leaves(t) {
      LeafIsInTree(t, state);
    } else if InTree(t, state) && state !in contents {
      var sub :| IsSubtree(t, sub) && sub.name == state;
      SubtreeRepresented(contents, t, sub);
      LeafOfSubtree(t, sub);
    }
  }

  // ----------------------------------------------------------- renderer

  lemma OverrideAssociates(a: map<string, nat>, b: map<string, nat>, c: map<string, nat>)
    ensures (a + b) + c == a + (b + c)
  {
  }

  lemma UpdateOverrides(a: map<string, nat>, k: string, v: nat, c: map<string, nat>)
    ensures a[k := v] + c == a + (map[k := v] + c)
  {
  }

  lemma ClusterLabels(labels: map<string, nat>, t: Tree, n: nat)
    requires t.children != []
    ensures labels[t.name := n] + LabelsIn(t.children, n + 1) == labels + Labels(t, n)
  {
    UpdateOverrides(labels, t.name, n, LabelsIn(t.children, n + 1));
  }

  /** What one more state inside adds to the lines, the numbers and the labels. */
  lemma InsideStep(machines: map<string, string>, ts: seq<Tree>, j: nat, n: nat, m: nat, labels: map<string, nat>,
                   before: map<string, nat>)
    requires j < |ts| && m == n + |CompositesIn(ts[..j])| && before == labels + LabelsIn(ts[..j], n)
    ensures LinesIn(machines, ts[..j + 1], n, 1) ==
            LinesIn(machines, ts[..j], n, 1) + Tabbed(Lines(machines, ts[j], m, 0))
    ensures n + |CompositesIn(ts[..j + 1])| == m + |Composites(ts[j])|
    ensures labels + LabelsIn(ts[..j + 1], n) == before + Labels(ts[j], m)
  {
    assert ts[..j + 1][..j] == ts[..j];
    TabbedLines(machines, ts[j], m, 0);
    OverrideAssociates(labels, LabelsIn(ts[..j], n), Labels(ts[j], m));
  }

  /** An edge as drawn: between two nodes, clipped at the clusters it names. */
  datatype Arrow = Arrow(fro: string, to: string, ltail: Option<nat>, lhead: Option<nat>)

  class Renderer {
    const contents: map<string, seq<string>>
    const machines: map<string, string>
    var subgraphnum: nat
    var clusterlabel: map<string, nat>

    constructor (contents: map<string, seq<string>>, machines: map<string, string>)
      ensures this.contents == contents && this.machines == machines
      ensures subgraphnum == 0 && clusterlabel == map[]
    {
      this.contents, this.machines := contents, machines;
      subgraphnum, clusterlabel := 0, map[];
    }

    /** emit_state. It ends on every finite tree; `t` is the tree under the state. */
    method EmitState(state: string, ghost t: Tree) returns (lines: seq<Line>)
      requires Represents(contents, t) && t.name == state
      modifies this
      ensures lines == Lines(machines, t, old(subgraphnum), 0)
      ensures subgraphnum == old(subgraphnum) + |Composites(t)|
      ensures clusterlabel == old(clusterlabel) + Labels(t, old(subgraphnum))
      decreases t, 1
    {
      if state in contents {
        lines := EmitCluster(state, t);
      } else {
        lines := [Line(0, Node(state, state in machines.Values))];
        assert clusterlabel == clusterlabel + map[];
      }
    }

    /** The branch of emit_state for a state with states inside. */
    method EmitCluster(state: string, ghost t: Tree) returns (lines: seq<Line>)
      requires Represents(contents, t) && t.name == state && state in contents
      modifies this
      ensures lines == Lines(machines, t, old(subgraphnum), 0)
      ensures subgraphnum == old(subgraphnum) + |Composites(t)|
      ensures clusterlabel == old(clusterlabel) + Labels(t, old(subgraphnum))
      decreases t, 0
    {
      ghost var n, labels := subgraphnum, clusterlabel;
      clusterlabel := clusterlabel[state := subgraphnum];
      lines := [Line(0, Open(subgraphnum))];
      subgraphnum := subgraphnum + 1;
      lines := lines + [Line(1, Label(state))];
      lines := lines + [Line(1, Color)];
      var inside := EmitInside(contents[state], t.children);
      ClusterLabels(labels, t, n);
      lines := lines + inside + [Line(0, Close)];
    }

    /** The loop of emit_state over the states inside one, each line one tab further in. */
    method EmitInside(states: seq<string>, ghost ts: seq<Tree>) returns (lines: seq<Line>)
      requires states == NamesOf(ts) && forall i :: 0 <= i < |ts| ==> Represents(contents, ts[i])
      modifies this
      ensures lines == LinesIn(machines, ts, old(subgraphnum), 1)
      ensures subgraphnum == old(subgraphnum) + |CompositesIn(ts)|
      ensures clusterlabel == old(clusterlabel) + LabelsIn(ts, old(subgraphnum))
      decreases ts, 1
    {
      ghost var n := subgraphnum;
      lines := [];
      for j := 0 to |states|
        invariant lines == LinesIn(machines, ts[..j], n, 1)
        invariant subgraphnum == n + |CompositesIn(ts[..j])|
        invariant clusterlabel == old(clusterlabel) + LabelsIn(ts[..j], n)
      {
        InsideStep(machines, ts, j, n, subgraphnum, old(clusterlabel), clusterlabel);
        var below := EmitState(states[j], ts[j]);
        lines := lines + Tabbed(below);
      }
      assert ts[..|states|] == ts;
    }

    /** The while-loops of emit_event: descend through initial states. */
    method Resolve(state: string, ghost t: Tree) returns (target: string, ghost passed: seq<string>)
      requires Represents(contents, t) && t.name == state && InitialIsChild(contents, machines)
      ensures target == Resolved(contents, machines, t).name
      ensures target !in machines && IsDescent(machines, passed + [target]) && (passed + [target])[0] == state
    {
      target, passed := state, [];
      ghost var u := t;
      while target in machines
        invariant u.name == target && Represents(contents, u)
        invariant IsDescent(machines, passed + [target]) && (passed + [target])[0] == state
        invariant Resolved(contents, machines, u) == Resolved(contents, machines, t)
        decreases u
      {
        u := ChildNamed(u.children, machines[target]);
        passed := passed + [target];
        target := machines[target];
      }
    }

    /** One end of an edge in emit_event. */
    method EmitEnd(state: string, ghost t: Tree, ghost n: nat) returns (target: string, cluster: Option<nat>)
      requires Represents(contents, t) && Distinct(Composites(t)) && InitialIsChild(contents, machines)
      requires clusterlabel == Labels(t, n)
      requires state in machines ==> InTree(t, state)
      ensures EndIsSound(contents, machines, t, n, state, target, cluster)
    {
      target, cluster := state, None;
      if state in machines {
        ghost var sub: Tree :| IsSubtree(t, sub) && sub.name == state;
        SubtreeRepresented(contents, t, sub);
        SubtreeIsDrawn(machines, t, n, 0, sub);
        cluster := Some(clusterlabel[state]);
        ghost var passed: seq<string>;
        target, passed := Resolve(state, sub);
        MachineEnd(contents, machines, t, n, sub);
      } else {
        DrawnAsNodeIff(contents, t, state);
      }
    }
  }

  /**
   One end of an edge. At a plain state it is that state, which is a node of
   the drawing exactly when it is in the tree and has no states inside. At a
   machine it names the cluster drawn for that machine and is attached to a
   state inside it, to a leaf of it when initial states lead on.
   */
  ghost predicate EndIsSound(contents: map<string, seq<string>>, machines: map<string, string>,
                             t: Tree, n: nat, state: string, target: string, cluster: Option<nat>) {
    && (cluster.Some? <==> state in machines)
    && target !in machines
    && (cluster.None? ==> target == state && (target in Leaves(t) <==> InTree(t, state) && state !in contents))
    && (cluster.Some? ==>
          exists sub :: && IsSubtree(t, sub) && sub.name == state && InTree(sub, target)
                        && (InitialsLead(contents, machines, t) ==> target in Leaves(sub) && target in Leaves(t))
                        && DrawnAs(Lines(machines, t, n, 0), machines, sub, cluster.value))
  }

  lemma MachineEnd(contents: map<string, seq<string>>, machines: map<string, string>, t: Tree, n: nat, sub: Tree)
    requires Represents(contents, t) && Distinct(Composites(t)) && InitialIsChild(contents, machines)
    requires IsSubtree(t, sub) && Represents(contents, sub) && sub.name in machines && sub.name in Labels(t, n)
    requires DrawnAs(Lines(machines, t, n, 0), machines, sub, Labels(t, n)[sub.name])
    ensures EndIsSound(contents, machines, t, n, sub.name, Resolved(contents, machines, sub).name,
                       Some(Labels(t, n)[sub.name]))
  {
    var u := Resolved(contents, machines, sub);
    ResolvedIsInside(contents, machines, sub);
    assert InTree(sub, u.name);
    if InitialsLead(contents, machines, t) {
      MachineResolves(contents, machines, t, sub);
      LeavesHaveNoContents(contents, sub);
      SubtreeTransitive(t, sub, u);
      DrawnAsNodeIff(contents, t, u.name);
    }
  }

  /**
   The whole drawing, for every finite tree of states whose composites have
   distinct names, when every machine's initial state is one of its children.
   When no initial state has states inside without an initial one, the end of
   an edge is a node of the drawing exactly when it was given as a machine or
   as a state of the tree without states inside.
   */
  method EmitDot(contents: map<string, seq<string>>, machines: map<string, string>, top: string,
                 edges: seq<(string, string)>, ghost t: Tree)
    returns (lines: seq<Line>, arrows: seq<Arrow>)
    requires Represents(contents, t) && t.name == top && Distinct(Composites(t)) && InitialIsChild(contents, machines)
    requires forall i :: 0 <= i < |edges| ==>
      (edges[i].0 in machines ==> InTree(t, edges[i].0)) && (edges[i].1 in machines ==> InTree(t, edges[i].1))
    ensures Depth(lines, 0) == Some(0)
    ensures Nodes(lines) == Leaves(t) && Titles(lines) == Composites(t)
    ensures Opens(lines) == Range(0, |Composites(t)|)
    ensures lines == Lines(machines, t, 0, 0) && |arrows| == |edges|
    ensures forall i :: 0 <= i < |edges| ==>
      && EndIsSound(contents, machines, t, 0, edges[i].0, arrows[i].fro, arrows[i].ltail)
      && EndIsSound(contents, machines, t, 0, edges[i].1, arrows[i].to, arrows[i].lhead)
    ensures forall i :: 0 <= i < |lines| ==> IsMarked(machines, lines[i])
    ensures InitialsLead(contents, machines, t) ==> forall i :: 0 <= i < |edges| ==>
      && (arrows[i].fro in Nodes(lines) <==> EndsAtNode(contents, machines, t, edges[i].0))
      && (arrows[i].to in Nodes(lines) <==> EndsAtNode(contents, machines, t, edges[i].1))
  {
    var r := new Renderer(contents, machines);
    lines := r.EmitState(top, t);
    assert map[] + Labels(t, 0) == Labels(t, 0);
    LinesBalanced(machines, t, 0, 0);
    LinesShowTree(machines, t, 0, 0);
    NodesAreMarked(machines, t, 0, 0);
    arrows := [];
    for i := 0 to |edges|
      invariant |arrows| == i && r.clusterlabel == Labels(t, 0)
      invariant forall j :: 0 <= j < i ==>
        && EndIsSound(contents, machines, t, 0, edges[j].0, arrows[j].fro, arrows[j].ltail)
        && EndIsSound(contents, machines, t, 0, edges[j].1, arrows[j].to, arrows[j].lhead)
    {
      var fro, ltail := r.EmitEnd(edges[i].0, t, 0);
      var to, lhead := r.EmitEnd(edges[i].1, t, 0);
      arrows := arrows + [Arrow(fro, to, ltail, lhead)];
    }
  }

  /** The state is a machine, or a state of the tree without states inside. */
  ghost predicate EndsAtNode(contents: map<string, seq<string>>, machines: map<string, string>,
                             t: Tree, state: string) {
    state in machines || (InTree(t, state) && state !in contents)
  }
}
