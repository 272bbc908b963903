/** The path tree (morpher/tools/utils/path_graph.py): nodes with named
    children, adding a child and a path, chain compression, the sorted
    pre-order listing and the indented rendering, and building a tree from
    a list of paths. The tree is modelled as a value: each operation returns
    the updated tree. A node's children keep the dictionary's insertion
    order; a child is looked up by its name, which is its dictionary key
    until compression renames nodes (nothing is added after that). */
module PathGraph {
  import opened Wrappers
  import opened Text

  datatype Node<M> = Node(name: string, isLeaf: bool, children: seq<Node<M>>, meta: Option<M>)

  // ---------------------------------------------------------------------
  // os.path.join on POSIX
  // ---------------------------------------------------------------------

  /** p.startswith("/") */
  predicate IsAbsolute(p: string) {
    |p| > 0 && p[0] == '/'
  }

  /** p.endswith("/") */
  predicate EndsWithSlash(p: string) {
    |p| > 0 && p[|p| - 1] == '/'
  }

  /** The joint os.path.join puts after a before a relative part: nothing
      when a is empty or already ends with a separator. */
  function Sep(a: string): string {
    if a == [] || EndsWithSlash(a) then "" else "/"
  }

  /** os.path.join(a, b): an absolute b replaces a; otherwise b follows a
      and its joint. */
  function PathJoin(a: string, b: string): string {
    if IsAbsolute(b) then b else a + Sep(a) + b
  }

  lemma SepAppend(x: string, b: string)
    requires b != []
    ensures Sep(x + b) == Sep(b)
  {
    assert (x + b)[|x + b| - 1] == b[|b| - 1];
  }

  lemma SepEnds(a: string)
    ensures Sep(a + Sep(a)) == ""
  {
    if Sep(a) == "/" {
      assert (a + "/")[|a|] == '/';
    }
  }

  lemma AbsoluteAppend(b: string, y: string)
    requires b != []
    ensures IsAbsolute(b + y) <==> IsAbsolute(b)
  {
    assert (b + y)[0] == b[0];
  }

  /** Joining is associative, so compressing a chain of directories into
      one joined name leaves every full path as it was. */
  lemma PathJoinAssoc(a: string, b: string, c: string)
    ensures PathJoin(PathJoin(a, b), c) == PathJoin(a, PathJoin(b, c))
  {
    if IsAbsolute(c) {
    } else if IsAbsolute(b) {
      AbsoluteAppend(b, Sep(b) + c);
      Assoc3(b, Sep(b), c);
    } else if b == [] {
      SepEnds(a);
      assert a + Sep(a) + [] == a + Sep(a);
    } else {
      SepAppend(a + Sep(a), b);
      AbsoluteAppend(b, Sep(b) + c);
      Assoc3(b, Sep(b), c);
      Assoc5(a, Sep(a), b, Sep(b), c);
    }
  }

  lemma Assoc3(x: string, y: string, z: string)
    ensures x + y + z == x + (y + z)
  {
  }

  lemma Assoc5(a: string, s: string, b: string, t: string, c: string)
    ensures a + s + b + t + c == a + s + (b + t + c)
  {
  }

  // ---------------------------------------------------------------------
  // Path(p).parts on POSIX
  // ---------------------------------------------------------------------

  /** A name that can stand between two separators of a normalised path. */
  predicate IsComponent(c: string) {
    c != "" && c != "." && '/' !in c
  }

  /** The pieces between separators, without the empty and "." ones that
      pathlib drops. */
  function Components(pieces: seq<string>): (r: seq<string>)
    ensures |r| <= |pieces|
  {
    if |pieces| == 0 then []
    else (if pieces[0] == "" || pieces[0] == "." then [] else [pieces[0]]) + Components(pieces[1..])
  }

  /** Path(p).parts: "/" first for an absolute path, then the components. */
  function PathParts(p: string): seq<string> {
    (if IsAbsolute(p) then ["/"] else []) + Components(Split(p, '/'))
  }

  lemma {:induction false} ComponentsOfClean(cs: seq<string>)
    requires forall k :: 0 <= k < |cs| ==> IsComponent(cs[k])
    ensures Components(cs) == cs
  {
    if |cs| > 0 {
      ComponentsOfClean(cs[1..]);
    }
  }

  /** Every part is a component, except the root "/" of an absolute path. */
  lemma {:induction false} ComponentsClean(pieces: seq<string>)
    requires forall k :: 0 <= k < |pieces| ==> '/' !in pieces[k]
    ensures forall k :: 0 <= k < |Components(pieces)| ==> IsComponent(Components(pieces)[k])
  {
    if |pieces| > 0 {
      ComponentsClean(pieces[1..]);
    }
  }

  lemma PathPartsClean(p: string)
    ensures var r := PathParts(p);
      forall k :: 0 <= k < |r| ==> IsComponent(r[k]) || (k == 0 && r[k] == "/" && IsAbsolute(p))
  {
    ComponentsClean(Split(p, '/'));
  }

  lemma JoinHead(cs: seq<string>, sep: char)
    requires |cs| > 0 && |cs[0]| > 0
    ensures |Join(cs, sep)| > 0 && Join(cs, sep)[0] == cs[0][0]
  {
    if |cs| > 1 {
      assert Join(cs, sep) == cs[0] + ([sep] + Join(cs[1..], sep));
    }
  }

  /** Writing components out with separators and reading the parts back
      gives the components. */
  lemma PathPartsRoundTrip(cs: seq<string>)
    requires |cs| > 0 && forall k :: 0 <= k < |cs| ==> IsComponent(cs[k])
    ensures PathParts(Join(cs, '/')) == cs
  {
    assert NoneContain(cs, '/');
    SplitJoin(cs, '/');
    ComponentsOfClean(cs);
    JoinHead(cs, '/');
  }

  /** The same for an absolute path: the root comes first. */
  lemma PathPartsRoundTripAbsolute(cs: seq<string>)
    requires |cs| > 0 && forall k :: 0 <= k < |cs| ==> IsComponent(cs[k])
    ensures PathParts("/" + Join(cs, '/')) == ["/"] + cs
  {
    var j := Join(cs, '/');
    var p := "/" + j;
    assert NoneContain(cs, '/');
    SplitJoin(cs, '/');
    ComponentsOfClean(cs);
    assert p[1..] == j && p[0] == '/';
    SplitLeadingSep(p, '/');
    ComponentsSkipEmpty(Split(j, '/'));
  }

  lemma SplitLeadingSep(p: string, sep: char)
    requires |p| > 0 && p[0] == sep
    ensures Split(p, sep) == [""] + Split(p[1..], sep)
  {
  }

  lemma ComponentsSkipEmpty(pieces: seq<string>)
    ensures Components([""] + pieces) == Components(pieces)
  {
    assert ([""] + pieces)[1..] == pieces;
  }

  // ---------------------------------------------------------------------
  // Sizes and heights
  // ---------------------------------------------------------------------

  /** The number of nodes. */
  function Size<M>(n: Node<M>): nat
    decreases n
  {
    1 + SizeAll(n.children)
  }

  function SizeAll<M>(cs: seq<Node<M>>): nat
    decreases cs
  {
    if |cs| == 0 then 0 else Size(cs[0]) + SizeAll(cs[1..])
  }

  function Height<M>(n: Node<M>): nat
    decreases n
  {
    1 + MaxHeight(n.children)
  }

  function MaxHeight<M>(cs: seq<Node<M>>): nat
    decreases cs
  {
    if |cs| == 0 then 0
    else
      var h := Height(cs[0]);
      var t := MaxHeight(cs[1..]);
      if h < t then t else h
  }

  lemma {:induction false} MaxHeightBounds<M>(cs: seq<Node<M>>, i: nat)
    requires i < |cs|
    ensures Height(cs[i]) <= MaxHeight(cs)
    decreases |cs|
  {
    if i > 0 {
      MaxHeightBounds(cs[1..], i - 1);
      assert cs[1..][i - 1] == cs[i];
    }
  }

  /** A child is lower than its parent. */
  lemma HeightChild<M>(n: Node<M>, i: nat)
    requires i < |n.children|
    ensures Height(n.children[i]) < Height(n)
  {
    MaxHeightBounds(n.children, i);
  }

  // ---------------------------------------------------------------------
  // sorted(children, key=name)
  // ---------------------------------------------------------------------

  /** Python's string order: code point by code point, a proper prefix
      first. */
  predicate NameLe(a: string, b: string) {
    a == [] || (b != [] && (a[0] < b[0] || (a[0] == b[0] && NameLe(a[1..], b[1..]))))
  }

  lemma {:induction false} NameLeTotal(a: string, b: string)
    ensures NameLe(a, b) || NameLe(b, a)
    decreases |a|
  {
    if a != [] && b != [] && a[0] == b[0] {
      NameLeTotal(a[1..], b[1..]);
    }
  }

  lemma {:induction false} NameLeTrans(a: string, b: string, c: string)
    requires NameLe(a, b) && NameLe(b, c)
    ensures NameLe(a, c)
    decreases |a|
  {
    if a != [] && b != [] && c != [] && a[0] == b[0] && b[0] == c[0] {
      NameLeTrans(a[1..], b[1..], c[1..]);
    }
  }

  predicate SortedByName<M>(cs: seq<Node<M>>) {
    forall i, j :: 0 <= i < j < |cs| ==> NameLe(cs[i].name, cs[j].name)
  }

  /** Insert x before the first node whose name is not below x's. */
  function InsertByName<M>(x: Node<M>, s: seq<Node<M>>): (r: seq<Node<M>>)
    ensures |r| == |s| + 1
    ensures forall k :: 0 <= k < |r| ==> r[k] == x || r[k] in s
    ensures multiset(r) == multiset(s) + multiset{x}
  {
    if |s| == 0 || NameLe(x.name, s[0].name) then [x] + s
    else
      var t := InsertByName(x, s[1..]);
      assert s == [s[0]] + s[1..];
      [s[0]] + t
  }

  /** sorted(cs, key=lambda c: c.name): a stable insertion sort. */
  function SortByName<M>(cs: seq<Node<M>>): (r: seq<Node<M>>)
    ensures |r| == |cs|
    ensures forall k :: 0 <= k < |r| ==> r[k] in cs
    ensures multiset(r) == multiset(cs)
  {
    if |cs| == 0 then []
    else
      assert cs == [cs[0]] + cs[1..];
      InsertByName(cs[0], SortByName(cs[1..]))
  }

  lemma {:induction false} InsertByNameSorted<M>(x: Node<M>, s: seq<Node<M>>)
    requires SortedByName(s)
    ensures SortedByName(InsertByName(x, s))
    decreases |s|
  {
    if |s| > 0 && !NameLe(x.name, s[0].name) {
      NameLeTotal(x.name, s[0].name);
      InsertByNameSorted(x, s[1..]);
      var t := InsertByName(x, s[1..]);
      var r := [s[0]] + t;
      forall i, j | 0 <= i < j < |r|
        ensures NameLe(r[i].name, r[j].name)
      {
        if i == 0 {
          var y := r[j];
          assert y in t;
          if y != x {
            var k :| 0 <= k < |s[1..]| && s[1..][k] == y;
            assert s[k + 1] == y;
          }
        }
      }
    } else if |s| > 0 {
      var r := [x] + s;
      forall i, j | 0 <= i < j < |r|
        ensures NameLe(r[i].name, r[j].name)
      {
        if i == 0 && j > 1 {
          NameLeTrans(x.name, s[0].name, s[j - 1].name);
        }
      }
    }
  }

  /** The listing order is sorted by name. */
  lemma {:induction false} SortByNameSorted<M>(cs: seq<Node<M>>)
    ensures SortedByName(SortByName(cs))
    decreases |cs|
  {
    if |cs| > 0 {
      SortByNameSorted(cs[1..]);
      InsertByNameSorted(cs[0], SortByName(cs[1..]));
    }
  }

  // ---------------------------------------------------------------------
  // traverse and format
  // ---------------------------------------------------------------------

  /** PathTree.traverse: the node's name, then each child's listing, the
      children taken in name order. */
  function Traverse<M>(n: Node<M>): seq<string>
    decreases n, 1
  {
    [n.name] + TraverseAll(SortByName(n.children), n)
  }

  function TraverseAll<M>(cs: seq<Node<M>>, parent: Node<M>): seq<string>
    requires forall k :: 0 <= k < |cs| ==> cs[k] in parent.children
    decreases parent, 0, |cs|
  {
    if |cs| == 0 then [] else assert cs[0] in parent.children; Traverse(cs[0]) + TraverseAll(cs[1..], parent)
  }

  const Branch: string := "\U{2514}\U{2500}\U{2500} "
  const Indent: string := "    "

  /** PathTree.format: one line per node, its prefix then the branch
      symbol when the prefix is not empty; children in name order, each one
      indent further in. */
  function Format<M>(n: Node<M>, prefix: string): string
    decreases n, 1
  {
    prefix + (if prefix != "" then Branch else "") + n.name + "\n"
      + FormatAll(SortByName(n.children), n, prefix + Indent)
  }

  function FormatAll<M>(cs: seq<Node<M>>, parent: Node<M>, prefix: string): string
    requires forall k :: 0 <= k < |cs| ==> cs[k] in parent.children
    decreases parent, 0, |cs|
  {
    if |cs| == 0 then "" else assert cs[0] in parent.children; Format(cs[0], prefix) + FormatAll(cs[1..], parent, prefix)
  }

  /** The listing as rows: a node's depth and name, in traverse order. */
  datatype Row = Row(depth: nat, name: string)

  function Rows<M>(n: Node<M>, d: nat): seq<Row>
    decreases n, 1
  {
    [Row(d, n.name)] + RowsAll(SortByName(n.children), n, d + 1)
  }

  function RowsAll<M>(cs: seq<Node<M>>, parent: Node<M>, d: nat): seq<Row>
    requires forall k :: 0 <= k < |cs| ==> cs[k] in parent.children
    decreases parent, 0, |cs|
  {
    if |cs| == 0 then [] else assert cs[0] in parent.children; Rows(cs[0], d) + RowsAll(cs[1..], parent, d)
  }

  function Names(rows: seq<Row>): (r: seq<string>)
    ensures |r| == |rows| && forall k :: 0 <= k < |rows| ==> r[k] == rows[k].name
  {
    seq(|rows|, k requires 0 <= k < |rows| => rows[k].name)
  }

  /** The line of one row: the root bare, a node at depth d after d
      indents and the branch symbol. */
  function Line(r: Row): string {
    Repeat(Indent, r.depth) + (if r.depth > 0 then Branch else "") + r.name + "\n"
  }

  function Render(rows: seq<Row>): string {
    if |rows| == 0 then "" else Line(rows[0]) + Render(rows[1..])
  }

  lemma {:induction false} RenderAppend(a: seq<Row>, b: seq<Row>)
    ensures Render(a + b) == Render(a) + Render(b)
    decreases |a|
  {
    if |a| > 0 {
      assert (a + b)[1..] == a[1..] + b;
      RenderAppend(a[1..], b);
      assert Line(a[0]) + (Render(a[1..]) + Render(b)) == Line(a[0]) + Render(a[1..]) + Render(b);
    } else {
      assert a + b == b;
    }
  }

  lemma NamesAppend(a: seq<Row>, b: seq<Row>)
    ensures Names(a + b) == Names(a) + Names(b)
  {
  }

  /** traverse lists exactly the names of the rows, in the same order. */
  lemma {:induction false} TraverseIsRowNames<M>(n: Node<M>, d: nat)
    ensures Traverse(n) == Names(Rows(n, d))
    decreases n, 1
  {
    TraverseAllIsRowNames(SortByName(n.children), n, d + 1);
    NamesAppend([Row(d, n.name)], RowsAll(SortByName(n.children), n, d + 1));
  }

  lemma {:induction false} TraverseAllIsRowNames<M>(cs: seq<Node<M>>, parent: Node<M>, d: nat)
    requires forall k :: 0 <= k < |cs| ==> cs[k] in parent.children
    ensures TraverseAll(cs, parent) == Names(RowsAll(cs, parent, d))
    decreases parent, 0, |cs|
  {
    if |cs| > 0 {
      assert cs[0] in parent.children;
      TraverseIsRowNames(cs[0], d);
      TraverseAllIsRowNames(cs[1..], parent, d);
      NamesAppend(Rows(cs[0], d), RowsAll(cs[1..], parent, d));
    }
  }

  /** format renders the rows: the text is their lines, one after the
      other, each ending in a newline. */
  lemma {:induction false} FormatIsRender<M>(n: Node<M>, d: nat)
    ensures Format(n, Repeat(Indent, d)) == Render(Rows(n, d))
    decreases n, 1
  {
    RepeatSnoc(Indent, d);
    FormatAllIsRender(SortByName(n.children), n, d + 1);
    var first := [Row(d, n.name)];
    var rest := RowsAll(SortByName(n.children), n, d + 1);
    RenderAppend(first, rest);
    assert Render(first) == Line(Row(d, n.name));
    if d == 0 {
      assert Repeat(Indent, d) == "";
    } else {
      assert |Repeat(Indent, d)| > 0;
    }
  }

  lemma {:induction false} FormatAllIsRender<M>(cs: seq<Node<M>>, parent: Node<M>, d: nat)
    requires forall k :: 0 <= k < |cs| ==> cs[k] in parent.children
    ensures FormatAll(cs, parent, Repeat(Indent, d)) == Render(RowsAll(cs, parent, d))
    decreases parent, 0, |cs|
  {
    if |cs| > 0 {
      assert cs[0] in parent.children;
      FormatIsRender(cs[0], d);
      FormatAllIsRender(cs[1..], parent, d);
      RenderAppend(Rows(cs[0], d), RowsAll(cs[1..], parent, d));
    }
  }

  lemma {:induction false} SizeAllInsert<M>(x: Node<M>, s: seq<Node<M>>)
    ensures SizeAll(InsertByName(x, s)) == Size(x) + SizeAll(s)
    decreases |s|
  {
    if |s| > 0 && !NameLe(x.name, s[0].name) {
      SizeAllInsert(x, s[1..]);
      assert ([s[0]] + InsertByName(x, s[1..]))[1..] == InsertByName(x, s[1..]);
    } else {
      assert ([x] + s)[1..] == s;
    }
  }

  lemma {:induction false} SizeAllSorted<M>(cs: seq<Node<M>>)
    ensures SizeAll(SortByName(cs)) == SizeAll(cs)
    decreases |cs|
  {
    if |cs| > 0 {
      SizeAllSorted(cs[1..]);
      SizeAllInsert(cs[0], SortByName(cs[1..]));
    }
  }

  /** One row per node: traverse and format both have as many entries as
      the tree has nodes. */
  lemma {:induction false} RowsCount<M>(n: Node<M>, d: nat)
    ensures |Rows(n, d)| == Size(n)
    decreases n, 1
  {
    RowsAllCount(SortByName(n.children), n, d + 1);
    SizeAllSorted(n.children);
  }

  lemma {:induction false} RowsAllCount<M>(cs: seq<Node<M>>, parent: Node<M>, d: nat)
    requires forall k :: 0 <= k < |cs| ==> cs[k] in parent.children
    ensures |RowsAll(cs, parent, d)| == SizeAll(cs)
    decreases parent, 0, |cs|
  {
    if |cs| > 0 {
      assert cs[0] in parent.children;
      RowsCount(cs[0], d);
      RowsAllCount(cs[1..], parent, d);
    }
  }

  /** The first row is the node itself at depth d; every later row lies
      deeper. */
  lemma {:induction false} RowsDepths<M>(n: Node<M>, d: nat)
    ensures Rows(n, d)[0] == Row(d, n.name)
    ensures forall k :: 1 <= k < |Rows(n, d)| ==> Rows(n, d)[k].depth > d
    decreases n, 1
  {
    RowsAllDepths(SortByName(n.children), n, d + 1);
  }

  lemma {:induction false} RowsAllDepths<M>(cs: seq<Node<M>>, parent: Node<M>, d: nat)
    requires forall k :: 0 <= k < |cs| ==> cs[k] in parent.children
    ensures forall k :: 0 <= k < |RowsAll(cs, parent, d)| ==> RowsAll(cs, parent, d)[k].depth >= d
    decreases parent, 0, |cs|
  {
    if |cs| > 0 {
      assert cs[0] in parent.children;
      RowsDepths(cs[0], d);
      RowsAllDepths(cs[1..], parent, d);
      var a: seq<Row> := Rows(cs[0], d);
      var b: seq<Row> := RowsAll(cs[1..], parent, d);
      forall k | 0 <= k < |a + b|
        ensures (a + b)[k].depth >= d
      {
        if k >= |a| {
          assert (a + b)[k] == b[k - |a|];
        }
      }
    }
  }

  /** traverse lists every node once: its length is the node count. */
  lemma TraverseLength<M>(n: Node<M>)
    ensures |Traverse(n)| == Size(n)
  {
    TraverseIsRowNames(n, 0);
    RowsCount(n, 0);
  }

  // ---------------------------------------------------------------------
  // concentrate
  // ---------------------------------------------------------------------

  lemma {:induction false} SizeAllBounds<M>(cs: seq<Node<M>>, i: nat)
    requires i < |cs|
    ensures Size(cs[i]) <= SizeAll(cs)
    decreases |cs|
  {
    if i > 0 {
      SizeAllBounds(cs[1..], i - 1);
      assert cs[1..][i - 1] == cs[i];
    }
  }

  lemma SizeSingle<M>(n: Node<M>, name: string)
    requires |n.children| == 1
    ensures Size(n.(name := name, children := n.children[0].children)) + 1 == Size(n)
  {
    assert n.children[1..] == [];
    assert SizeAll(n.children) == Size(n.children[0]) + SizeAll(n.children[1..]);
  }

  /** The node has a single child and that child is a directory: the
      chain concentrate folds into one node. */
  predicate Collapsible<M>(n: Node<M>) {
    |n.children| == 1 && !n.children[0].isLeaf
  }

  /** The node after its own chain is folded: its name joined with the
      single child's, the child's children adopted, its leaf flag kept. */
  function Merge<M>(n: Node<M>): (r: Node<M>)
    ensures r.isLeaf == n.isLeaf && !Collapsible(r)
    ensures Size(r) <= Size(n)
    decreases Size(n)
  {
    if Collapsible(n) then
      var c := n.children[0];
      SizeSingle(n, PathJoin(n.name, c.name));
      Merge(n.(name := PathJoin(n.name, c.name), children := c.children))
    else n
  }

  /** PathTreeNode.concentrate: fold the node's chain, then every child's
      chains, recursively. */
  function Concentrate<M>(n: Node<M>): (r: Node<M>)
    ensures r.isLeaf == n.isLeaf
    decreases Size(n), 0
  {
    var m := Merge(n);
    m.(children := ConcentrateAll(m.children))
  }

  function ConcentrateAll<M>(cs: seq<Node<M>>): (r: seq<Node<M>>)
    ensures |r| == |cs|
    ensures forall i :: 0 <= i < |cs| ==> r[i].isLeaf == cs[i].isLeaf
    decreases SizeAll(cs), 1
  {
    if |cs| == 0 then []
    else [Concentrate(cs[0])] + ConcentrateAll(cs[1..])
  }

  lemma {:induction false} ConcentrateAllAt<M>(cs: seq<Node<M>>, i: nat)
    requires i < |cs|
    ensures ConcentrateAll(cs)[i] == Concentrate(cs[i])
    decreases |cs|
  {
    if i > 0 {
      ConcentrateAllAt(cs[1..], i - 1);
      assert cs[1..][i - 1] == cs[i];
    }
  }

  /** PathTreeNode.concentrate as the loops it runs: fold the chain while
      the node has one directory child, then concentrate each child. */
  method ConcentrateNode<M>(n: Node<M>) returns (r: Node<M>)
    ensures r == Concentrate(n)
    decreases Size(n)
  {
    var cur := n;
    while Collapsible(cur)
      invariant Merge(cur) == Merge(n)
      invariant Size(cur) <= Size(n)
      decreases Size(cur)
    {
      var c := cur.children[0];
      SizeSingle(cur, PathJoin(cur.name, c.name));
      cur := cur.(name := PathJoin(cur.name, c.name), children := c.children);
    }
    var children := cur.children;
    var done: seq<Node<M>> := [];
    var i := 0;
    while i < |children|
      invariant 0 <= i <= |children|
      invariant |done| == i
      invariant forall k :: 0 <= k < i ==> done[k] == Concentrate(children[k])
    {
      SizeAllBounds(children, i);
      var c := ConcentrateNode(children[i]);
      done := done + [c];
      i := i + 1;
    }
    forall k | 0 <= k < |children|
      ensures done[k] == ConcentrateAll(children)[k]
    {
      ConcentrateAllAt(children, k);
    }
    r := cur.(children := done);
  }

  /** No chain is left: after concentrate no node has exactly one child
      that is a directory. */
  predicate Compressed<M>(n: Node<M>) {
    !Collapsible(n) && forall i :: 0 <= i < |n.children| ==> Compressed(n.children[i])
  }

  lemma {:induction false} ConcentrateCompressed<M>(n: Node<M>)
    ensures Compressed(Concentrate(n))
    decreases Size(n), 0
  {
    var m := Merge(n);
    ConcentrateAllCompressed(m.children);
  }

  lemma {:induction false} ConcentrateAllCompressed<M>(cs: seq<Node<M>>)
    ensures forall i :: 0 <= i < |cs| ==> Compressed(ConcentrateAll(cs)[i])
    decreases SizeAll(cs), 1
  {
    if |cs| > 0 {
      ConcentrateCompressed(cs[0]);
      ConcentrateAllCompressed(cs[1..]);
      var r := ConcentrateAll(cs);
      forall i | 0 <= i < |cs|
        ensures Compressed(r[i])
      {
        if i > 0 {
          assert r[i] == ConcentrateAll(cs[1..])[i - 1];
        }
      }
    }
  }

  /** The full paths of the files under n, whose parent's full path is p. */
  function LeafPaths<M>(n: Node<M>, p: string): set<string>
    decreases n
  {
    var full := PathJoin(p, n.name);
    (if n.isLeaf then {full} else {}) + LeafPathsAll(n.children, full)
  }

  function LeafPathsAll<M>(cs: seq<Node<M>>, p: string): set<string>
    decreases cs
  {
    if |cs| == 0 then {} else LeafPaths(cs[0], p) + LeafPathsAll(cs[1..], p)
  }

  /** No file node has a single directory child. Paths of files never
      make one: a file has no children. */
  predicate NoLeafChain<M>(n: Node<M>) {
    !(n.isLeaf && Collapsible(n))
    && forall i :: 0 <= i < |n.children| ==> NoLeafChain(n.children[i])
  }

  lemma {:induction false} MergeLeafPaths<M>(n: Node<M>, p: string)
    requires NoLeafChain(n)
    ensures LeafPaths(Merge(n), p) == LeafPaths(n, p)
    ensures NoLeafChain(Merge(n))
    decreases Size(n)
  {
    if Collapsible(n) {
      var c := n.children[0];
      var m := n.(name := PathJoin(n.name, c.name), children := c.children);
      SizeSingle(n, m.name);
      assert n.children[1..] == [];
      assert NoLeafChain(c);
      MergeLeafPaths(m, p);
      PathJoinAssoc(p, n.name, c.name);
      assert LeafPathsAll(n.children, PathJoin(p, n.name)) == LeafPaths(c, PathJoin(p, n.name));
    }
  }

  /** Concentrate keeps every file's full path, as long as no file node
      has a single directory child. */
  lemma {:induction false} ConcentrateKeepsLeafPaths<M>(n: Node<M>, p: string)
    requires NoLeafChain(n)
    ensures LeafPaths(Concentrate(n), p) == LeafPaths(n, p)
    decreases Size(n), 0
  {
    var m := Merge(n);
    MergeLeafPaths(n, p);
    ConcentrateAllKeepsLeafPaths(m.children, PathJoin(p, m.name));
  }

  lemma {:induction false} ConcentrateAllKeepsLeafPaths<M>(cs: seq<Node<M>>, p: string)
    requires forall i :: 0 <= i < |cs| ==> NoLeafChain(cs[i])
    ensures LeafPathsAll(ConcentrateAll(cs), p) == LeafPathsAll(cs, p)
    decreases SizeAll(cs), 1
  {
    if |cs| > 0 {
      ConcentrateKeepsLeafPaths(cs[0], p);
      ConcentrateAllKeepsLeafPaths(cs[1..], p);
      assert ConcentrateAll(cs)[1..] == ConcentrateAll(cs[1..]);
    }
  }

  // ---------------------------------------------------------------------
  // add_child, add_path and from_paths
  // ---------------------------------------------------------------------

  /** The position of the child called name, or |cs| when there is none. */
  function IndexOf<M>(cs: seq<Node<M>>, name: string): (i: nat)
    ensures i <= |cs|
    ensures i < |cs| ==> cs[i].name == name
    ensures forall k :: 0 <= k < i ==> cs[k].name != name
  {
    if |cs| == 0 then 0
    else if cs[0].name == name then 0
    else 1 + IndexOf(cs[1..], name)
  }

  /** add_child: a child of that name is added, as a leaf when leaf holds
      and carrying meta, only when there is none yet. The plain tree's
      add_child passes no meta; the search tool's passes the file's. */
  function AddChild<M>(n: Node<M>, name: string, leaf: bool, meta: Option<M>): Node<M> {
    if IndexOf(n.children, name) < |n.children| then n
    else n.(children := n.children + [Node(name, leaf, [], meta)])
  }

  /** add_child finds the existing child untouched, or appends a new
      childless one; the other children stay in place. */
  lemma AddChildFinds<M>(n: Node<M>, name: string, leaf: bool, meta: Option<M>)
    ensures var r := AddChild(n, name, leaf, meta);
      var i := IndexOf(r.children, name);
      i < |r.children| && r.name == n.name && r.isLeaf == n.isLeaf && r.meta == n.meta
      && n.children <= r.children
      && (i < |n.children| <==> r == n)
      && (i == |n.children| ==> r.children[i] == Node(name, leaf, [], meta))
  {
    var r := AddChild(n, name, leaf, meta);
    if IndexOf(n.children, name) == |n.children| {
      assert r.children[|n.children|].name == name;
      assert forall k :: 0 <= k < |n.children| ==> r.children[k] == n.children[k];
    }
  }

  /** Adding a name twice is adding it once: the second call neither
      replaces the child's leaf flag nor its meta. */
  lemma AddChildIdempotent<M>(n: Node<M>, name: string, leaf: bool, meta: Option<M>, leaf': bool, meta': Option<M>)
    ensures AddChild(AddChild(n, name, leaf, meta), name, leaf', meta') == AddChild(n, name, leaf, meta)
  {
    AddChildFinds(n, name, leaf, meta);
  }

  /** The walk of add_path below a node: each remaining part is added
      under the previous one, the last as a leaf carrying meta. */
  function Insert<M>(n: Node<M>, parts: seq<string>, meta: Option<M>): (r: Node<M>)
    ensures r.name == n.name && r.isLeaf == n.isLeaf && r.meta == n.meta
    decreases |parts|
  {
    if |parts| == 0 then n
    else
      var last := |parts| == 1;
      var m := AddChild(n, parts[0], last, if last then meta else None);
      AddChildFinds(n, parts[0], last, if last then meta else None);
      var k := IndexOf(m.children, parts[0]);
      m.(children := m.children[k := Insert(m.children[k], parts[1..], meta)])
  }

  /** The node reached from n by following the names in parts. */
  function NodeAt<M>(n: Node<M>, parts: seq<string>): Option<Node<M>>
    decreases |parts|
  {
    if |parts| == 0 then Some(n)
    else
      var k := IndexOf(n.children, parts[0]);
      if k < |n.children| then NodeAt(n.children[k], parts[1..]) else None
  }

  /** The child add_path moves to after adding parts[0] below n. */
  function Step<M>(n: Node<M>, parts: seq<string>, meta: Option<M>): Node<M>
    requires |parts| > 0
  {
    var last := |parts| == 1;
    var m := AddChild(n, parts[0], last, if last then meta else None);
    AddChildFinds(n, parts[0], last, if last then meta else None);
    m.children[IndexOf(m.children, parts[0])]
  }

  lemma StepFacts<M>(n: Node<M>, parts: seq<string>, meta: Option<M>)
    requires |parts| > 0
    ensures var i := IndexOf(n.children, parts[0]);
      (i < |n.children| ==> Step(n, parts, meta) == n.children[i])
      && (i == |n.children| ==>
            Step(n, parts, meta) == Node(parts[0], |parts| == 1, [], if |parts| == 1 then meta else None))
  {
    var last := |parts| == 1;
    AddChildFinds(n, parts[0], last, if last then meta else None);
  }

  /** Following parts[0] in the updated tree leads into the updated child. */
  lemma InsertDescend<M>(n: Node<M>, parts: seq<string>, meta: Option<M>, q: seq<string>)
    requires |parts| > 0 && |q| > 0 && q[0] == parts[0]
    ensures NodeAt(Insert(n, parts, meta), q) == NodeAt(Insert(Step(n, parts, meta), parts[1..], meta), q[1..])
  {
    var last := |parts| == 1;
    var m := AddChild(n, parts[0], last, if last then meta else None);
    AddChildFinds(n, parts[0], last, if last then meta else None);
    var k := IndexOf(m.children, parts[0]);
    IndexOfUpdate(m.children, k, Insert(m.children[k], parts[1..], meta), parts[0]);
  }

  /** Following another name in the updated tree leads where it did. */
  lemma InsertAside<M>(n: Node<M>, parts: seq<string>, meta: Option<M>, q: seq<string>)
    requires |parts| > 0 && |q| > 0 && q[0] != parts[0]
    requires IndexOf(n.children, q[0]) < |n.children|
    ensures NodeAt(Insert(n, parts, meta), q) == NodeAt(n, q)
  {
    var last := |parts| == 1;
    var cm := if last then meta else None;
    var m := AddChild(n, parts[0], last, cm);
    AddChildFinds(n, parts[0], last, cm);
    var k := IndexOf(m.children, parts[0]);
    var c := Insert(m.children[k], parts[1..], meta);
    if m != n {
      IndexOfAppend(n.children, Node(parts[0], last, [], cm), q[0]);
    }
    IndexOfUpdate(m.children, k, c, q[0]);
    var j := IndexOf(n.children, q[0]);
    assert m.children[k := c][j] == n.children[j];
  }

  /** A path already in the tree is not added again: the tree, and the
      meta of the node at its end, are unchanged. */
  lemma {:induction false} InsertIdempotent<M>(n: Node<M>, parts: seq<string>, meta: Option<M>)
    requires NodeAt(n, parts).Some?
    ensures Insert(n, parts, meta) == n
    decreases |parts|
  {
    if |parts| > 0 {
      var last := |parts| == 1;
      AddChildFinds(n, parts[0], last, if last then meta else None);
      var k := IndexOf(n.children, parts[0]);
      InsertIdempotent(n.children[k], parts[1..], meta);
      assert n.children[k := n.children[k]] == n.children;
    }
  }

  /** A path not yet in the tree ends, once added, at a new childless
      leaf carrying meta. */
  lemma {:induction false} InsertNewLeaf<M>(n: Node<M>, parts: seq<string>, meta: Option<M>)
    requires |parts| > 0 && NodeAt(n, parts).None?
    ensures NodeAt(Insert(n, parts, meta), parts) == Some(Node(parts[|parts| - 1], true, [], meta))
    decreases |parts|
  {
    var c := Step(n, parts, meta);
    StepFacts(n, parts, meta);
    InsertDescend(n, parts, meta, parts);
    if |parts| > 1 {
      if IndexOf(n.children, parts[0]) == |n.children| {
        NodeAtEmpty(c, parts[1..]);
      }
      InsertNewLeaf(c, parts[1..], meta);
      assert parts[1..][|parts[1..]| - 1] == parts[|parts| - 1];
    }
  }

  /** The directories a new path creates on its way carry no meta and
      are not leaves: meta goes to the last part only. */
  lemma {:induction false} InsertNewDirectory<M>(n: Node<M>, parts: seq<string>, meta: Option<M>, j: nat)
    requires 0 < j < |parts| && NodeAt(n, parts[..j]).None?
    ensures NodeAt(Insert(n, parts, meta), parts[..j]).Some?
    ensures NodeAt(Insert(n, parts, meta), parts[..j]).value.meta.None?
    ensures !NodeAt(Insert(n, parts, meta), parts[..j]).value.isLeaf
    decreases |parts|
  {
    var c := Step(n, parts, meta);
    StepFacts(n, parts, meta);
    InsertDescend(n, parts, meta, parts[..j]);
    assert parts[..j][1..] == parts[1..][..j - 1];
    if j > 1 {
      if IndexOf(n.children, parts[0]) == |n.children| {
        NodeAtEmpty(c, parts[1..][..j - 1]);
      }
      InsertNewDirectory(c, parts[1..], meta, j - 1);
    }
  }

  lemma NodeAtEmpty<M>(n: Node<M>, parts: seq<string>)
    requires n.children == [] && |parts| > 0
    ensures NodeAt(n, parts).None?
  {
  }

  /** Replacing a child by one of the same name keeps every lookup. */
  lemma IndexOfUpdate<M>(cs: seq<Node<M>>, k: nat, c: Node<M>, name: string)
    requires k < |cs| && c.name == cs[k].name
    ensures IndexOf(cs[k := c], name) == IndexOf(cs, name)
  {
    assert forall t :: 0 <= t < |cs| ==> cs[k := c][t].name == cs[t].name;
  }

  /** Appending a child of a new name keeps every lookup of the others. */
  lemma IndexOfAppend<M>(cs: seq<Node<M>>, c: Node<M>, name: string)
    requires IndexOf(cs, name) < |cs|
    ensures IndexOf(cs + [c], name) == IndexOf(cs, name)
  {
    assert forall t :: 0 <= t < |cs| ==> (cs + [c])[t] == cs[t];
  }

  /** Adding a path keeps every path that was already in the tree. */
  lemma {:induction false} InsertKeeps<M>(n: Node<M>, parts: seq<string>, meta: Option<M>, q: seq<string>)
    requires NodeAt(n, q).Some?
    ensures NodeAt(Insert(n, parts, meta), q).Some?
    decreases |q|
  {
    if |parts| > 0 && |q| > 0 {
      if q[0] == parts[0] {
        StepFacts(n, parts, meta);
        InsertDescend(n, parts, meta, q);
        InsertKeeps(Step(n, parts, meta), parts[1..], meta, q[1..]);
      } else {
        InsertAside(n, parts, meta, q);
      }
    }
  }

  /** Sibling names are distinct at every level: they are the keys of the
      children dictionaries. */
  predicate UniqueNames<M>(n: Node<M>) {
    (forall i, j :: 0 <= i < j < |n.children| ==> n.children[i].name != n.children[j].name)
    && forall i :: 0 <= i < |n.children| ==> UniqueNames(n.children[i])
  }

  /** Adding a path keeps sibling names distinct. */
  lemma {:induction false} InsertUnique<M>(n: Node<M>, parts: seq<string>, meta: Option<M>)
    requires UniqueNames(n)
    ensures UniqueNames(Insert(n, parts, meta))
    decreases |parts|
  {
    if |parts| > 0 {
      var last := |parts| == 1;
      var cm := if last then meta else None;
      var m := AddChild(n, parts[0], last, cm);
      AddChildFinds(n, parts[0], last, cm);
      var k := IndexOf(m.children, parts[0]);
      AddChildUnique(n, parts[0], last, cm);
      InsertUnique(m.children[k], parts[1..], meta);
      UpdateUnique(m, k, Insert(m.children[k], parts[1..], meta));
    }
  }

  lemma AddChildUnique<M>(n: Node<M>, name: string, leaf: bool, meta: Option<M>)
    requires UniqueNames(n)
    ensures UniqueNames(AddChild(n, name, leaf, meta))
  {
    AddChildFinds(n, name, leaf, meta);
  }

  lemma UpdateUnique<M>(m: Node<M>, k: nat, c: Node<M>)
    requires UniqueNames(m) && k < |m.children|
    requires UniqueNames(c) && c.name == m.children[k].name
    ensures UniqueNames(m.(children := m.children[k := c]))
  {
  }

  /** The parts add_path walks below the root: the first is skipped when
      it is the root's name. */
  function Below<M>(root: Node<M>, parts: seq<string>): seq<string>
    requires |parts| > 0
  {
    if parts[0] == root.name then parts[1..] else parts
  }

  /** PathTree.add_path: an empty tree gets a root named after the first
      part, then the parts below the root are added, the last carrying
      meta (none for the plain tree, the file's matches for the search
      tool's tree). */
  function AddPath<M>(root: Option<Node<M>>, parts: seq<string>, meta: Option<M>): (r: Node<M>)
    requires |parts| > 0
  {
    var t := if root.None? then Node(parts[0], false, [], None) else root.value;
    Insert(t, Below(t, parts), meta)
  }

  /** The tree from_paths builds before compression: every path added in
      turn, each with its meta. */
  function Build<M>(paths: seq<seq<string>>, metas: seq<Option<M>>): (r: Option<Node<M>>)
    requires |metas| == |paths| && forall i :: 0 <= i < |paths| ==> |paths[i]| > 0
    ensures r.Some? <==> |paths| > 0
    decreases |paths|
  {
    if |paths| == 0 then None
    else
      var last := |paths| - 1;
      Some(AddPath(Build(paths[..last], metas[..last]), paths[last], metas[last]))
  }

  lemma BuildSnoc<M>(paths: seq<seq<string>>, metas: seq<Option<M>>, i: nat)
    requires |metas| == |paths| && forall i :: 0 <= i < |paths| ==> |paths[i]| > 0
    requires i < |paths|
    ensures Build(paths[..i + 1], metas[..i + 1]) == Some(AddPath(Build(paths[..i], metas[..i]), paths[i], metas[i]))
  {
    assert paths[..i + 1][..i] == paths[..i];
    assert metas[..i + 1][..i] == metas[..i];
  }

  /** The root is named after the first part of the first path, and no
      later path renames it. */
  lemma {:induction false} BuildRootName<M>(paths: seq<seq<string>>, metas: seq<Option<M>>)
    requires |metas| == |paths| && forall i :: 0 <= i < |paths| ==> |paths[i]| > 0
    requires |paths| > 0
    ensures Build(paths, metas).value.name == paths[0][0]
    ensures !Build(paths, metas).value.isLeaf
    decreases |paths|
  {
    var last := |paths| - 1;
    if last > 0 {
      BuildRootName(paths[..last], metas[..last]);
    }
  }

  /** Every path given is in the tree, below the root. */
  lemma {:induction false} BuildHasAll<M>(paths: seq<seq<string>>, metas: seq<Option<M>>, i: nat)
    requires |metas| == |paths| && forall i :: 0 <= i < |paths| ==> |paths[i]| > 0
    requires i < |paths|
    ensures var t := Build(paths, metas).value;
      NodeAt(t, Below(t, paths[i])).Some?
    decreases |paths|
  {
    var last := |paths| - 1;
    var prev := Build(paths[..last], metas[..last]);
    var t0 := if prev.None? then Node(paths[last][0], false, [], None) else prev.value;
    var t := Build(paths, metas).value;
    BuildRootName(paths, metas);
    if last > 0 {
      BuildRootName(paths[..last], metas[..last]);
    }
    assert t == Insert(t0, Below(t0, paths[last]), metas[last]);
    assert Below(t, paths[i]) == Below(t0, paths[i]);
    if i == last {
      if NodeAt(t0, Below(t0, paths[i])).Some? {
        InsertIdempotent(t0, Below(t0, paths[i]), metas[last]);
      } else {
        InsertNewLeaf(t0, Below(t0, paths[i]), metas[last]);
      }
    } else {
      BuildHasAll(paths[..last], metas[..last], i);
      assert paths[..last][i] == paths[i];
      InsertKeeps(t0, Below(t0, paths[last]), metas[last], Below(t0, paths[i]));
    }
  }

  /** TreeGraph.from_paths: add every path in turn, then compress the
      chains when concentrate is set (which needs at least one path: an
      empty tree has no root to compress). */
  method FromPaths<M>(paths: seq<seq<string>>, metas: seq<Option<M>>, concentrate: bool) returns (tree: Option<Node<M>>)
    requires |metas| == |paths| && forall i :: 0 <= i < |paths| ==> |paths[i]| > 0
    requires concentrate ==> |paths| > 0
    ensures !concentrate ==> tree == Build(paths, metas)
    ensures concentrate ==> tree == Some(Concentrate(Build(paths, metas).value))
  {
    tree := None;
    var i := 0;
    while i < |paths|
      invariant 0 <= i <= |paths|
      invariant tree == Build(paths[..i], metas[..i])
    {
      BuildSnoc(paths, metas, i);
      tree := Some(AddPath(tree, paths[i], metas[i]));
      i := i + 1;
    }
    assert paths[..|paths|] == paths;
    assert metas[..|metas|] == metas;
    if concentrate {
      var root := ConcentrateNode(tree.value);
      tree := Some(root);
    }
  }
}
