/** The directory tree of the emulator, held as an arena: node `i` is
    `nodes[i]`, and the links between nodes (parent, leftmost child, right
    sibling) are arena indices, with `NIL` for a null link. This module states
    when such an arena is a well-formed tree and defines, as functions of the
    arena, what child lookup, `ls` and `pwd` must produce. */
module DirectoryTree {
  import opened TextFormat

  /** The null link. */
  const NIL: int := -1

  /** One file or directory. The links default to null, as `Node::Node`
      does. */
  datatype Node = Node(
    name: string,
    isDir: bool,
    parent: int := NIL,
    leftmostChild: int := NIL,
    rightSibling: int := NIL)

  /** Every element of `xs` is a node of the arena. */
  ghost predicate AllRefs(nodes: seq<Node>, xs: seq<int>)
  {
    forall k :: 0 <= k < |xs| ==> 0 <= xs[k] < |nodes|
  }

  /** `chain` is exactly the sibling chain that starts at `first`: following
      `rightSibling` from `first` visits the elements of `chain` in order and
      then reaches null. */
  ghost predicate IsChain(nodes: seq<Node>, first: int, chain: seq<int>)
  {
    && AllRefs(nodes, chain)
    && first == (if chain == [] then NIL else chain[0])
    && forall k {:trigger nodes[chain[k]]} :: 0 <= k < |chain| ==>
         nodes[chain[k]].rightSibling == (if k + 1 < |chain| then chain[k + 1] else NIL)
  }

  /** Parent links lead from every node to `root`, and `depth` counts the
      steps: the root has no parent and depth 0, every other node has a parent
      one level above it. */
  ghost predicate Ranked(nodes: seq<Node>, root: int, depth: seq<nat>)
  {
    && |depth| == |nodes|
    && 0 <= root < |nodes|
    && nodes[root].parent == NIL
    && depth[root] == 0
    && forall i :: 0 <= i < |nodes| && i != root ==>
         0 <= nodes[i].parent < |nodes| && depth[i] == depth[nodes[i].parent] + 1
  }

  /** The arena is a tree rooted at `root` whose child lists are `kids`:
      the root is a directory with the empty name and no parent, each node's
      children form a null-terminated sibling chain, files have no children,
      every child's parent is the directory that lists it, and every non-root
      node is listed by its parent. */
  ghost predicate WellFormed(nodes: seq<Node>, root: int, kids: seq<seq<int>>, depth: seq<nat>)
  {
    && Ranked(nodes, root, depth)
    && |kids| == |nodes|
    && nodes[root].isDir
    && nodes[root].name == ""
    && (forall i :: 0 <= i < |nodes| ==> IsChain(nodes, nodes[i].leftmostChild, kids[i]))
    && (forall i :: 0 <= i < |nodes| && !nodes[i].isDir ==> kids[i] == [])
    && (forall i, k :: 0 <= i < |nodes| && 0 <= k < |kids[i]| ==> nodes[kids[i][k]].parent == i)
    && (forall i :: 0 <= i < |nodes| && i != root ==> i in kids[nodes[i].parent])
  }

  /** A sibling chain never comes back to a node it has already visited. */
  lemma ChainIsAcyclic(nodes: seq<Node>, first: int, chain: seq<int>)
    requires IsChain(nodes, first, chain)
    ensures forall j, k :: 0 <= j < k < |chain| ==> chain[j] != chain[k]
  {
    forall j, k | 0 <= j < k < |chain|
      ensures chain[j] != chain[k]
    {
      DistinctSuccessors(nodes, first, chain, j, k);
    }
  }

  /** Two positions of a chain hold nodes with different right siblings,
      hence different nodes: argued from the end of the chain backwards. */
  lemma {:induction false} DistinctSuccessors(nodes: seq<Node>, first: int, chain: seq<int>, j: int, k: int)
    requires IsChain(nodes, first, chain)
    requires 0 <= j < k < |chain|
    ensures nodes[chain[j]].rightSibling != nodes[chain[k]].rightSibling
    decreases |chain| - k
  {
    assert nodes[chain[j]].rightSibling == chain[j + 1];
    if k + 1 < |chain| {
      DistinctSuccessors(nodes, first, chain, j + 1, k + 1);
      assert chain[j + 1] != chain[k + 1];
      assert nodes[chain[k]].rightSibling == chain[k + 1];
    }
  }

  /** In a well-formed tree the parent of every non-root node is a
      directory (files have no children). */
  lemma ParentIsDirectory(nodes: seq<Node>, root: int, kids: seq<seq<int>>, depth: seq<nat>, i: int)
    requires WellFormed(nodes, root, kids, depth)
    requires 0 <= i < |nodes| && i != root
    ensures nodes[nodes[i].parent].isDir
  {
    var p := nodes[i].parent;
    assert i in kids[p];
  }

  /** The first node of `chain` named `name`, or `NIL` when none is: what
      `FileSystem::findChild` returns for the chain of a directory's
      children. */
  function FirstWithName(nodes: seq<Node>, chain: seq<int>, name: string): (r: int)
    requires AllRefs(nodes, chain)
    ensures r == NIL <==> forall k :: 0 <= k < |chain| ==> nodes[chain[k]].name != name
    ensures r != NIL ==>
      exists k :: 0 <= k < |chain| && chain[k] == r && nodes[r].name == name
        && forall j :: 0 <= j < k ==> nodes[chain[j]].name != name
  {
    if chain == [] then NIL
    else if nodes[chain[0]].name == name then chain[0]
    else
      var r := FirstWithName(nodes, chain[1..], name);
      assert forall k :: 1 <= k < |chain| ==> chain[1..][k - 1] == chain[k];
      r
  }

  /** How `ls` shows one node: its name, followed by "/" for a directory. */
  function Entry(n: Node): string
  {
    if n.isDir then n.name + "/" else n.name
  }

  /** The entries of the nodes of `chain`, in chain order. */
  function Entries(nodes: seq<Node>, chain: seq<int>): seq<string>
    requires AllRefs(nodes, chain)
  {
    seq(|chain|, k requires 0 <= k < |chain| => Entry(nodes[chain[k]]))
  }

  /** The names of the nodes of `path`, in order. */
  function Names(nodes: seq<Node>, path: seq<int>): seq<string>
    requires AllRefs(nodes, path)
  {
    seq(|path|, k requires 0 <= k < |path| => nodes[path[k]].name)
  }

  /** What `ls` prints for a directory whose children are `chain`: the
      entries, one per line. */
  function Listing(nodes: seq<Node>, chain: seq<int>): string
    requires AllRefs(nodes, chain)
  {
    Join(Entries(nodes, chain), '\n')
  }

  /** `ls` output reads back as exactly the entries in chain order: an empty
      directory lists as the empty string, and otherwise splitting at the
      newlines recovers every entry (so there is no trailing newline), as long
      as no name holds a newline. */
  lemma ListingLines(nodes: seq<Node>, chain: seq<int>)
    requires AllRefs(nodes, chain)
    requires forall k :: 0 <= k < |chain| ==> '\n' !in nodes[chain[k]].name
    ensures chain == [] ==> Listing(nodes, chain) == ""
    ensures chain != [] ==> Split(Listing(nodes, chain), '\n') == Entries(nodes, chain)
  {
    var es := Entries(nodes, chain);
    forall k | 0 <= k < |es|
      ensures '\n' !in es[k]
    {
      var n := nodes[chain[k]];
      assert n.isDir ==> es[k] == n.name + "/";
    }
    if chain != [] {
      SplitJoin(es, '\n');
    }
  }

  /** The nodes from just below the root down to node `i`, following parent
      links upwards; empty exactly for the root. */
  ghost function PathFrom(nodes: seq<Node>, root: int, depth: seq<nat>, i: int): (path: seq<int>)
    requires Ranked(nodes, root, depth)
    requires 0 <= i < |nodes|
    ensures |path| == depth[i]
    ensures path == [] <==> i == root
    ensures AllRefs(nodes, path)
    ensures forall k :: 0 <= k < |path| ==> path[k] != root
    ensures path != [] ==> path[|path| - 1] == i && nodes[path[0]].parent == root
    ensures forall k :: 0 < k < |path| ==> nodes[path[k]].parent == path[k - 1]
    decreases depth[i]
  {
    if i == root then []
    else PathFrom(nodes, root, depth, nodes[i].parent) + [i]
  }

  /** What `pwd` prints for the directory at the end of `path`: "/" for the
      root, otherwise "/" before every name on the path. */
  function PwdText(nodes: seq<Node>, path: seq<int>): (s: string)
    requires AllRefs(nodes, path)
    ensures s != "" && s[0] == '/'
  {
    if path == [] then "/" else PrefixEach(Names(nodes, path), '/')
  }

  /** Entering child `c` of directory `d` adds "/" and the child's name to
      the working path (the root's own "/" is not repeated), and leaving it
      again, by its parent link, returns to `d`. */
  lemma PwdOfChild(nodes: seq<Node>, root: int, kids: seq<seq<int>>, depth: seq<nat>, d: int, c: int)
    requires WellFormed(nodes, root, kids, depth)
    requires 0 <= d < |nodes| && c in kids[d]
    ensures c != root && nodes[c].parent == d
    ensures PathFrom(nodes, root, depth, c) == PathFrom(nodes, root, depth, d) + [c]
    ensures PwdText(nodes, PathFrom(nodes, root, depth, c))
         == (if d == root then "" else PwdText(nodes, PathFrom(nodes, root, depth, d))) + "/" + nodes[c].name
  {
    var k :| 0 <= k < |kids[d]| && kids[d][k] == c;
    assert nodes[c].parent == d;
    PwdOfParent(nodes, root, depth, c);
  }

  /** The working path of a non-root node is that of its parent followed by
      "/" and its own name. */
  lemma PwdOfParent(nodes: seq<Node>, root: int, depth: seq<nat>, c: int)
    requires Ranked(nodes, root, depth)
    requires 0 <= c < |nodes| && c != root
    ensures PathFrom(nodes, root, depth, c) == PathFrom(nodes, root, depth, nodes[c].parent) + [c]
    ensures PwdText(nodes, PathFrom(nodes, root, depth, c))
         == (if nodes[c].parent == root then "" else PwdText(nodes, PathFrom(nodes, root, depth, nodes[c].parent)))
            + "/" + nodes[c].name
  {
    var p := PathFrom(nodes, root, depth, nodes[c].parent);
    assert Names(nodes, p + [c]) == Names(nodes, p) + [nodes[c].name];
    PrefixEachSnoc(Names(nodes, p), nodes[c].name, '/');
  }

  /** `pwd` output reads back as the names on the path: splitting it at the
      slashes gives an empty piece (before the leading "/") and then every
      name from just below the root down to `i`, as long as no name on the
      path holds a slash. */
  lemma PwdSegments(nodes: seq<Node>, root: int, depth: seq<nat>, i: int)
    requires Ranked(nodes, root, depth)
    requires 0 <= i < |nodes| && i != root
    requires forall k :: 0 <= k < |PathFrom(nodes, root, depth, i)| ==>
               '/' !in nodes[PathFrom(nodes, root, depth, i)[k]].name
    ensures Split(PwdText(nodes, PathFrom(nodes, root, depth, i)), '/')
         == [""] + Names(nodes, PathFrom(nodes, root, depth, i))
  {
    SplitPrefixEach(Names(nodes, PathFrom(nodes, root, depth, i)), '/');
  }
}
