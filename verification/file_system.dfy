/** The file-system emulator: an arena of nodes with a root and a cursor
    (the current directory), and the commands that navigate and print it. */
module Files {
  import opened TextFormat
  import opened DirectoryTree

  /** What `cd` returns when it cannot move. */
  const InvalidPath: string := "invalid path"

  /** What the special-path handler returns when `path` is not one of the
      special tokens, so that `cd` goes on to look for a child. */
  const Continue: string := "continue"

  /** The tokens `cd` handles without looking at the children. */
  predicate IsSpecialPath(path: string)
  {
    path == ".." || path == "/" || path == "~" || path == "."
  }

  class FileSystem {
    /** The arena: node `i` is `nodes[i]`. */
    var nodes: seq<Node>
    var root: int
    /** The current directory. */
    var curr: int
    /** The children of each node, in sibling order. */
    ghost var kids: seq<seq<int>>
    /** The distance of each node from the root. */
    ghost var depth: seq<nat>

    /** The tree is well formed and the cursor is a directory in it. */
    ghost predicate Valid()
      reads this
    {
      && WellFormed(nodes, root, kids, depth)
      && 0 <= curr < |nodes|
      && nodes[curr].isDir
    }

    /** Allocates a node with the given fields (links default to null) and
        returns its index. */
    method NewNode(name: string, isDir: bool, parent: int := NIL, leftmostChild: int := NIL, rightSibling: int := NIL)
      returns (id: int)
      modifies this`nodes
      ensures id == |old(nodes)|
      ensures nodes == old(nodes) + [Node(name, isDir, parent, leftmostChild, rightSibling)]
    {
      id := |nodes|;
      nodes := nodes + [Node(name, isDir, parent, leftmostChild, rightSibling)];
    }

    /** A tree holding only the root, which is the current directory. */
    constructor ()
      ensures Valid()
      ensures root == curr && nodes == [Node("", true)] && kids[root] == []
    {
      nodes, root, curr := [], 0, 0;
      kids, depth := [[]], [0];
      new;
      root := NewNode("", true);
      curr := root;
    }

    /** The preset trees. Preset "2" gives the root eight children, in the
        order a.txt, b, c.txt, d, e.txt, f, g.txt, h, where b, d, f and h are
        empty directories and the rest are files; any other input except "1"
        and "3" gives the root alone. */
    constructor Preset(testinput: string)
      requires testinput != "1" && testinput != "3"
      ensures Valid()
      ensures curr == root && nodes[root].name == "" && nodes[root].isDir
      ensures testinput != "2" ==> nodes == [Node("", true)] && kids[root] == []
      ensures testinput == "2" ==>
        && root == 0
        && IsPresetTwo(nodes, kids, depth)
    {
      nodes, root, curr := [], 0, 0;
      kids, depth := [[]], [0];
      new;
      root := NewNode("", true);
      curr := root;
      if testinput == "2" {
        BuildPresetTwo();
        kids := [[8, 7, 6, 5, 4, 3, 2, 1], [], [], [], [], [], [], [], []];
        depth := [0, 1, 1, 1, 1, 1, 1, 1, 1];
        PresetTwoIsWellFormed(nodes, kids, depth);
      }
    }

    /** The body of preset "2": allocates the root's eight children from
        "h" down to "a.txt", each linked to the one allocated before it as its
        right sibling, and makes "a.txt" the root's leftmost child. */
    method BuildPresetTwo()
      requires nodes == [Node("", true)] && root == 0
      modifies this`nodes
      ensures nodes == [
        Node("", true, NIL, 8), Node("h", true, 0), Node("g.txt", false, 0, NIL, 1),
        Node("f", true, 0, NIL, 2), Node("e.txt", false, 0, NIL, 3), Node("d", true, 0, NIL, 4),
        Node("c.txt", false, 0, NIL, 5), Node("b", true, 0, NIL, 6), Node("a.txt", false, 0, NIL, 7)]
    {
      var h := NewNode("h", true, root);
      var g := NewNode("g.txt", false, root, NIL, h);
      var f := NewNode("f", true, root, NIL, g);
      var e := NewNode("e.txt", false, root, NIL, f);
      var d := NewNode("d", true, root, NIL, e);
      var c := NewNode("c.txt", false, root, NIL, d);
      var b := NewNode("b", true, root, NIL, c);
      var a := NewNode("a.txt", false, root, NIL, b);
      nodes := nodes[root := nodes[root].(leftmostChild := a)];
    }

    /** Handles the tokens that do not name a child: ".." moves to the parent
        (and fails at the root), "/" and "~" move to the root, "." stays put;
        any other path is left to the child search. */
    method HandleSpecialPaths(path: string) returns (r: string)
      requires Valid()
      modifies this`curr
      ensures Valid()
      ensures path == ".." && old(curr) == root ==> r == InvalidPath && curr == old(curr)
      ensures path == ".." && old(curr) != root ==> r == "" && curr == nodes[old(curr)].parent
      ensures (path == "/" || path == "~") ==> r == "" && curr == root
      ensures path == "." ==> r == "" && curr == old(curr)
      ensures !IsSpecialPath(path) ==> r == Continue && curr == old(curr)
    {
      if path == ".." {
        if curr == root {
          return InvalidPath;
        }
        ParentIsDirectory(nodes, root, kids, depth, curr);
        curr := nodes[curr].parent;
        return "";
      }
      if path == "/" || path == "~" {
        curr := root;
        return "";
      }
      if path == "." {
        return "";
      }
      return Continue;
    }

    /** Moves to the child named `path` when there is one and it is a
        directory; otherwise fails and stays put. */
    method NavigateToChild(path: string) returns (r: string)
      requires Valid()
      modifies this`curr
      ensures Valid()
      ensures var c := FirstWithName(nodes, kids[old(curr)], path);
        if c != NIL && nodes[c].isDir then r == "" && curr == c
        else r == InvalidPath && curr == old(curr)
    {
      var child := FindChild(path);
      if child == NIL {
        return InvalidPath;
      }
      if !nodes[child].isDir {
        return InvalidPath;
      }
      curr := child;
      return "";
    }

    /** The first child of the current directory named `name`, or `NIL`. */
    method FindChild(name: string) returns (c: int)
      requires Valid()
      ensures c == FirstWithName(nodes, kids[curr], name)
      ensures c != NIL ==> 0 <= c < |nodes| && c in kids[curr] && nodes[c].name == name
    {
      ghost var chain := kids[curr];
      ghost var k := 0;
      var tmp := nodes[curr].leftmostChild;
      while tmp != NIL
        invariant 0 <= k <= |chain|
        invariant tmp == if k < |chain| then chain[k] else NIL
        invariant FirstWithName(nodes, chain, name) == FirstWithName(nodes, chain[k..], name)
        decreases |chain| - k
      {
        if nodes[tmp].name == name {
          return tmp;
        }
        assert chain[k..][1..] == chain[k + 1..];
        tmp := nodes[tmp].rightSibling;
        k := k + 1;
      }
      return NIL;
    }

    /** Changes the current directory by one path token: the special tokens
        first, then an exact match among the immediate children, which must be
        a directory. Only the cursor can change, and only on success. */
    method Cd(path: string) returns (r: string)
      requires Valid()
      modifies this`curr
      ensures Valid()
      ensures r == "" || r == InvalidPath
      ensures r == InvalidPath ==> curr == old(curr)
      ensures path == ".." ==>
        if old(curr) == root then r == InvalidPath
        else r == "" && curr == nodes[old(curr)].parent
      ensures (path == "/" || path == "~") ==> r == "" && curr == root
      ensures path == "." ==> r == "" && curr == old(curr)
      ensures !IsSpecialPath(path) ==>
        var c := FirstWithName(nodes, kids[old(curr)], path);
        if c != NIL && nodes[c].isDir then r == "" && curr == c
        else r == InvalidPath && curr == old(curr)
    {
      r := HandleSpecialPaths(path);
      if r != Continue {
        return;
      }
      r := NavigateToChild(path);
    }

    /** The entries of the current directory, one per line, in sibling order. */
    method Ls() returns (res: string)
      requires Valid()
      ensures res == Listing(nodes, kids[curr])
    {
      ghost var chain := kids[curr];
      ghost var entries := Entries(nodes, chain);
      ghost var k := 0;
      res := "";
      var tmp := nodes[curr].leftmostChild;
      while tmp != NIL
        invariant 0 <= k <= |chain|
        invariant tmp == if k < |chain| then chain[k] else NIL
        invariant res == SuffixEach(entries[..k], '\n')
        decreases |chain| - k
      {
        ghost var before := res;
        var node := nodes[tmp];
        res := res + node.name;
        if node.isDir {
          res := res + "/\n";
        } else {
          res := res + "\n";
        }
        EntryLine(before, node);
        ListingStep(entries, k, before);
        tmp := node.rightSibling;
        k := k + 1;
      }
      assert entries[..k] == entries;
      ghost var full := res;
      if res != "" {
        res := res[..|res| - 1];
      }
      ListingDone(entries, full, res);
    }

    /** The path from the root to the current directory. */
    method Pwd() returns (res: string)
      requires Valid()
      ensures res == PwdText(nodes, PathFrom(nodes, root, depth, curr))
      ensures curr == root ==> res == "/"
    {
      ghost var full := PrefixEach(Names(nodes, PathFrom(nodes, root, depth, curr)), '/');
      res := "";
      var tmp := curr;
      while tmp != root
        invariant 0 <= tmp < |nodes|
        invariant PrefixEach(Names(nodes, PathFrom(nodes, root, depth, tmp)), '/') + res == full
        decreases depth[tmp]
      {
        PwdStep(nodes, root, depth, tmp, res);
        res := "/" + nodes[tmp].name + res;
        tmp := nodes[tmp].parent;
      }
      if res == "" {
        res := "/";
      }
    }
  }

  /** One step of `pwd`: the prefixed names up to a non-root node, then
      `res`, are the prefixed names up to its parent, then "/" and its name
      put in front of `res`. */
  lemma PwdStep(nodes: seq<Node>, root: int, depth: seq<nat>, i: int, res: string)
    requires Ranked(nodes, root, depth)
    requires 0 <= i < |nodes| && i != root
    ensures PrefixEach(Names(nodes, PathFrom(nodes, root, depth, i)), '/') + res
         == PrefixEach(Names(nodes, PathFrom(nodes, root, depth, nodes[i].parent)), '/') + ("/" + nodes[i].name + res)
  {
    var p := PathFrom(nodes, root, depth, nodes[i].parent);
    assert Names(nodes, p + [i]) == Names(nodes, p) + [nodes[i].name];
    PrefixEachSnoc(Names(nodes, p), nodes[i].name, '/');
    var above := PrefixEach(Names(nodes, p), '/');
    assert above + ['/'] + nodes[i].name + res == above + ("/" + nodes[i].name + res);
  }

  /** The text `ls` appends for one node is its entry and a newline. */
  lemma EntryLine(before: string, n: Node)
    ensures before + n.name + (if n.isDir then "/\n" else "\n") == before + Entry(n) + "\n"
  {
    if n.isDir {
      assert n.name + "/\n" == (n.name + "/") + "\n";
      assert before + n.name + "/\n" == before + (n.name + "/\n");
    }
  }

  /** One step of `ls`: the first `k` entries, each followed by a newline,
      then entry `k` and a newline, are the first `k + 1` entries, each
      followed by a newline. */
  lemma ListingStep(entries: seq<string>, k: int, before: string)
    requires 0 <= k < |entries|
    requires before == SuffixEach(entries[..k], '\n')
    ensures before + entries[k] + "\n" == SuffixEach(entries[..k + 1], '\n')
  {
    assert entries[..k + 1][..k] == entries[..k];
  }

  /** Dropping the trailing newline of the accumulated lines leaves the
      entries joined by newlines. */
  lemma ListingDone(entries: seq<string>, full: string, res: string)
    requires full == SuffixEach(entries, '\n')
    requires res == if full != "" then full[..|full| - 1] else full
    ensures res == Join(entries, '\n')
  {
    if entries != [] {
      SuffixEachJoin(entries, '\n');
      assert full[..|full| - 1] == Join(entries, '\n');
    }
  }

  /** The arena that preset "2" builds: the root (index 0) and its eight
      children, allocated from "h" down to "a.txt". */
  ghost predicate IsPresetTwo(nodes: seq<Node>, kids: seq<seq<int>>, depth: seq<nat>)
  {
    && nodes == [
         Node("", true, NIL, 8), Node("h", true, 0), Node("g.txt", false, 0, NIL, 1),
         Node("f", true, 0, NIL, 2), Node("e.txt", false, 0, NIL, 3), Node("d", true, 0, NIL, 4),
         Node("c.txt", false, 0, NIL, 5), Node("b", true, 0, NIL, 6), Node("a.txt", false, 0, NIL, 7)]
    && kids == [[8, 7, 6, 5, 4, 3, 2, 1], [], [], [], [], [], [], [], []]
    && depth == [0, 1, 1, 1, 1, 1, 1, 1, 1]
  }

  /** The arena built by preset "2" is a well-formed tree. */
  lemma PresetTwoIsWellFormed(nodes: seq<Node>, kids: seq<seq<int>>, depth: seq<nat>)
    requires IsPresetTwo(nodes, kids, depth)
    ensures WellFormed(nodes, 0, kids, depth)
  {
    PresetTwoChains(nodes, kids, depth);
    PresetTwoParents(nodes, kids, depth);
  }

  /** The root's children in preset "2": their names and entries in chain
      order, and that each is a childless node under the root. */
  lemma PresetTwoListing(nodes: seq<Node>, kids: seq<seq<int>>, depth: seq<nat>)
    requires IsPresetTwo(nodes, kids, depth)
    ensures AllRefs(nodes, kids[0])
    ensures Names(nodes, kids[0]) == ["a.txt", "b", "c.txt", "d", "e.txt", "f", "g.txt", "h"]
    ensures Entries(nodes, kids[0]) == ["a.txt", "b/", "c.txt", "d/", "e.txt", "f/", "g.txt", "h/"]
    ensures forall k :: 0 <= k < |kids[0]| ==> nodes[kids[0][k]].parent == 0 && kids[kids[0][k]] == []
  {
    PresetTwoParents(nodes, kids, depth);
    var es := Entries(nodes, kids[0]);
    var expected := ["a.txt", "b/", "c.txt", "d/", "e.txt", "f/", "g.txt", "h/"];
    forall k | 0 <= k < 8
      ensures es[k] == expected[k]
    {
      assert kids[0][k] == 8 - k;
    }
  }

  /** Each node's children in preset "2" are its sibling chain. */
  lemma PresetTwoChains(nodes: seq<Node>, kids: seq<seq<int>>, depth: seq<nat>)
    requires IsPresetTwo(nodes, kids, depth)
    ensures forall i :: 0 <= i < |nodes| ==> IsChain(nodes, nodes[i].leftmostChild, kids[i])
  {
    forall i | 0 <= i < |nodes|
      ensures IsChain(nodes, nodes[i].leftmostChild, kids[i])
    {
      if i == 0 {
        var chain := kids[0];
        forall k | 0 <= k < |chain|
          ensures nodes[chain[k]].rightSibling == (if k + 1 < |chain| then chain[k + 1] else NIL)
        {
          assert chain[k] == 8 - k;
        }
      } else {
        assert nodes[i].leftmostChild == NIL && kids[i] == [];
      }
    }
  }

  /** In preset "2" every child lists the root as its parent, one level
      below it, and only the root has children. */
  lemma PresetTwoParents(nodes: seq<Node>, kids: seq<seq<int>>, depth: seq<nat>)
    requires IsPresetTwo(nodes, kids, depth)
    ensures Ranked(nodes, 0, depth)
    ensures forall i :: 0 <= i < |nodes| && !nodes[i].isDir ==> kids[i] == []
    ensures forall i, k :: 0 <= i < |nodes| && 0 <= k < |kids[i]| ==> nodes[kids[i][k]].parent == i
    ensures forall i :: 0 <= i < |nodes| && i != 0 ==> i in kids[nodes[i].parent]
    ensures forall i :: 0 < i < |nodes| ==> nodes[i].parent == 0 && kids[i] == []
  {
    forall i | 0 <= i < |nodes| && i != 0
      ensures nodes[i].parent == 0 && depth[i] == 1 && kids[i] == [] && i in kids[0]
    {
      assert kids[0][8 - i] == i;
    }
  }

  /** The root listing of preset "2" reads back, line by line, as the
      entries of its eight children. */
  lemma PresetTwoRootLines(nodes: seq<Node>, kids: seq<seq<int>>, depth: seq<nat>)
    requires IsPresetTwo(nodes, kids, depth)
    ensures AllRefs(nodes, kids[0])
    ensures Split(Listing(nodes, kids[0]), '\n') == ["a.txt", "b/", "c.txt", "d/", "e.txt", "f/", "g.txt", "h/"]
  {
    PresetTwoListing(nodes, kids, depth);
    forall k | 0 <= k < |kids[0]|
      ensures '\n' !in nodes[kids[0][k]].name
    {
      assert kids[0][k] == 8 - k;
    }
    ListingLines(nodes, kids[0]);
  }

  /** In preset "2", looking up "b" among the root's children finds node 7,
      an empty directory. */
  lemma PresetTwoFindB(nodes: seq<Node>, kids: seq<seq<int>>, depth: seq<nat>)
    requires IsPresetTwo(nodes, kids, depth)
    ensures AllRefs(nodes, kids[0]) && AllRefs(nodes, kids[7])
    ensures FirstWithName(nodes, kids[0], "b") == 7 && nodes[7].isDir
    ensures Listing(nodes, kids[7]) == ""
  {
    var chain := kids[0];
    assert chain[0] == 8 && nodes[8].name == "a.txt";
    assert chain[1..] == [7, 6, 5, 4, 3, 2, 1];
    assert FirstWithName(nodes, chain, "b") == FirstWithName(nodes, chain[1..], "b");
    assert Entries(nodes, kids[7]) == [];
  }

  /** In preset "2" the working path of node 7 is "/b". */
  lemma PresetTwoPwdB(nodes: seq<Node>, kids: seq<seq<int>>, depth: seq<nat>)
    requires IsPresetTwo(nodes, kids, depth)
    ensures Ranked(nodes, 0, depth)
    ensures PwdText(nodes, PathFrom(nodes, 0, depth, 7)) == "/b"
  {
    PresetTwoParents(nodes, kids, depth);
    assert PathFrom(nodes, 0, depth, 7) == [7];
    assert Names(nodes, [7]) == ["b"];
  }

  /** `cd name` followed by `cd ..`: when entering the child succeeds,
      going up again succeeds and returns to the directory one started from. */
  method EnterAndLeave(fs: FileSystem, name: string) returns (into: string, back: string)
    requires fs.Valid() && !IsSpecialPath(name)
    modifies fs`curr
    ensures fs.Valid()
    ensures into == "" ==> back == "" && fs.curr == old(fs.curr)
  {
    ghost var start := fs.curr;
    into := fs.Cd(name);
    if into == "" {
      ghost var c := FirstWithName(fs.nodes, fs.kids[start], name);
      PwdOfChild(fs.nodes, fs.root, fs.kids, fs.depth, start, c);
    }
    back := fs.Cd("..");
  }
}
