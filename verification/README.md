# File-system emulator: the in-memory directory tree

A Dafny model of the directory tree at the heart of the C++ file-system
emulator in `FileSystem.cpp`. The emulator keeps files and directories as
nodes in a left-child/right-sibling tree. Each node has a name, a
directory flag, a parent link, a leftmost-child link and a right-sibling
link. A `FileSystem` object holds the root and a cursor, the current
directory. The implemented commands are:

- `cd`, which moves the cursor by one path token: `..`, `/`, `~`, `.` or
  the exact name of a child directory;
- `ls`, which lists the current directory's children;
- `pwd`, which prints the path from the root to the cursor.

There are also the constructors: the empty tree, and the fixed preset trees.

## How the model is built

- **Arena.** The nodes live in an arena, the field `nodes: seq<Node>` of
  class `Files.FileSystem`. A link is an arena index, and `NIL` (-1) stands
  for the null pointer. `root` and `curr` are indices too.
  `FileSystem.NewNode` appends a node, just as `new Node(...)` allocates one.
- **Ghost fields.** Two ghost fields describe the tree: `kids[i]` is node
  `i`'s child list in sibling order, and `depth[i]` is its distance from
  the root.
- **Well-formedness.** `DirectoryTree.WellFormed` ties the ghost fields to
  the links:
  - each `kids[i]` is exactly the null-terminated `rightSibling` chain that
    starts at `leftmostChild`;
  - every listed child has its parent link set to the directory that lists
    it, and every non-root node is listed by its parent;
  - files have no children;
  - the root is a directory with the empty name and no parent, and every
    other node's parent sits one level closer to the root.

  `FileSystem.Valid()` adds that the cursor is a directory.
- **Acyclic chains.** That sibling chains never repeat a node is not an
  assumption. `ChainIsAcyclic` derives it from the fact that a chain is
  finite and ends in null.
- **Loops.** `findChild`, `ls` and `pwd` become methods with the same
  `while` loops as the source. The `rightSibling` loops run over a ghost
  position in `kids[curr]`. The `parent` loop in `pwd` decreases `depth`.
  Each method's result equals a specification function:
  - `FirstWithName` for the lookup;
  - `Listing`, the entries joined by newlines, for `ls`;
  - `PwdText` over `PathFrom`, the nodes from just below the root down to
    the cursor, for `pwd`.

  Lemmas then state what those functions mean: the first match and only
  immediate children; the listing splits back into its entries; the path
  splits back into its names; entering a child extends the path by one
  name.
- **`cd` and its helpers.** `HandleSpecialPaths`, `NavigateToChild` and
  `Cd` may modify only `curr` (`modifies this`curr`), so no node field can
  change. Their postconditions spell out every branch, return string and
  no-change-on-failure case, and they keep `Valid()`. On a well-formed tree
  the cursor therefore stays a directory.

Preset `"2"` makes all eight nodes children of the root, none with
children of its own (FileSystem.cpp:121-129), so `cd b` followed by `ls`
prints the empty string (`PresetTwoFindB`).

## Model

| member | source | states |
|---|---|---|
| `DirectoryTree.ChainIsAcyclic` | FileSystem.cpp:48-57 | the sibling chain walked by the lookup and listing loops never visits a node twice |
| `DirectoryTree.ParentIsDirectory` | FileSystem.cpp:10-15 | in a well-formed tree the parent of any non-root node is a directory, so `..` always lands on a directory |
| `DirectoryTree.FirstWithName` | FileSystem.cpp:48-57 | the result is null exactly when no child in the chain has that exact name, and otherwise it is the earliest child in sibling order with that name |
| `DirectoryTree.ListingLines` | FileSystem.cpp:172-186 | an empty directory lists as ""; otherwise splitting the listing at newlines gives back every entry in sibling order (name, plus "/" for a directory), with no trailing empty line, provided names hold no newline |
| `DirectoryTree.PathFrom` | FileSystem.cpp:193-197 | walking parent links from a node reaches the root after exactly `depth` steps; the path is empty only for the root, ends at the node, starts just below the root, and each node's parent is the one before it |
| `DirectoryTree.PwdText` | FileSystem.cpp:188-202 | the printed path is never empty and always starts with "/" |
| `DirectoryTree.PwdOfChild` | FileSystem.cpp:188-202 | for a child of directory `d`, the path is that of `d` plus "/" and the child's name (the root adds nothing), and the child's parent link leads back to `d` |
| `DirectoryTree.PwdOfParent` | FileSystem.cpp:194-196 | the path of a non-root node is its parent's path followed by "/" and its own name |
| `DirectoryTree.PwdSegments` | FileSystem.cpp:188-202 | splitting the path of a non-root node at "/" gives an empty piece and then the names from just below the root down to the node, provided names hold no "/" |
| `Files.FileSystem.NewNode` | FileSystem.cpp:61-68 | allocating a node appends exactly one node with the given name, kind and links (null by default) and returns its index |
| `Files.FileSystem.constructor` | FileSystem.cpp:94-97 | a new file system is well formed: the root is a directory with the empty name, no parent and no children, and the cursor is the root |
| `Files.FileSystem.Preset` | FileSystem.cpp:101-130 | every preset other than "1" and "3" yields a well-formed tree with the cursor at the root; preset "2" yields exactly the nine-node arena, and any other input yields the bare root |
| `Files.FileSystem.BuildPresetTwo` | FileSystem.cpp:121-129 | the eight nodes are allocated from "h" to "a.txt", each linked to the previously allocated one as its right sibling, and "a.txt" becomes the root's leftmost child |
| `Files.FileSystem.HandleSpecialPaths` | FileSystem.cpp:9-28 | ".." at the root returns "invalid path" and stays; ".." elsewhere moves to the parent and returns ""; "/" and "~" move to the root; "." stays; any other token returns "continue" and stays; the tree stays well formed |
| `Files.FileSystem.NavigateToChild` | FileSystem.cpp:32-44 | moves to the first child with exactly that name and returns "" when it is a directory; returns "invalid path" and stays when no child matches or the match is a file |
| `Files.FileSystem.FindChild` | FileSystem.cpp:48-57 | returns the first immediate child of the cursor with exactly that name, or null when there is none |
| `Files.FileSystem.Cd` | FileSystem.cpp:162-168 | the result is always "" or "invalid path"; on failure the cursor is unchanged; the special tokens behave as in the handler and any other token behaves as child navigation; only the cursor can change, and it stays a directory |
| `Files.FileSystem.Ls` | FileSystem.cpp:172-186 | returns the children's entries in sibling order, separated by newlines, with no trailing newline, and changes nothing |
| `Files.FileSystem.Pwd` | FileSystem.cpp:188-202 | returns "/" at the root and otherwise "/" followed by the name of each node from just below the root down to the cursor; changes nothing |
| `Files.PresetTwoIsWellFormed` | FileSystem.cpp:120-130 | the arena built by preset "2" satisfies every well-formedness condition |
| `Files.PresetTwoParents` | FileSystem.cpp:121-128 | in preset "2" all eight nodes have the root as parent and no children, so the parent, depth and child-list conditions of well-formedness hold |
| `Files.PresetTwoListing` | FileSystem.cpp:121-129 | the root's children in preset "2" are a.txt, b, c.txt, d, e.txt, f, g.txt and h in chain order; b, d, f and h are directories, and each child lies directly under the root with no children |
| `Files.PresetTwoRootLines` | FileSystem.cpp:172-186 | on preset "2", `ls` at the root reads back line by line as a.txt, b/, c.txt, d/, e.txt, f/, g.txt, h/ |
| `Files.PresetTwoFindB` | FileSystem.cpp:127-129 | on preset "2", looking up "b" among the root's children finds node 7, a directory with an empty listing |
| `Files.PresetTwoPwdB` | FileSystem.cpp:188-202 | on preset "2", the path printed for node "b" is "/b" |
| `Files.EnterAndLeave` | FileSystem.cpp:162-168 | for a token other than `..`, `/`, `~` and `.`, when `cd name` succeeds, a following `cd ..` (the parent step at FileSystem.cpp lines 10-15) succeeds and puts the cursor back where it started |

## Left out

- `tree`, `touch`, `mkdir`, `rm`, `rmdir`, `mv` and `Node::leftSibling`
  are not modelled. They are unimplemented stubs that return dummy values,
  so the source defines no behaviour for them. Alphabetical insertion,
  creation, deletion and move/rename therefore do not appear in the model.
- For the same reason, well-formedness does not require sibling names to be
  sorted, unique or non-empty. No implemented operation creates or
  maintains that order, and the preset builds its chain by hand.
  `FirstWithName` returns the first match when names repeat, as the source
  does.
- The destructors of `Node` and `FileSystem` are empty, and freeing memory
  has no counterpart in the model.
- The `Node` constructor's warning on standard error about a malformed root
  is output only, so it is left out. The shape it checks (a directory with
  the empty name and no parent) is part of `WellFormed` instead.
- `Files.FileSystem.Preset` requires its input to be neither "1" nor "3".
  Presets "1" and "3" are fixed test fixtures and are not modelled.
- Heap allocation and pointer identity are replaced by arena indices, with
  -1 for null. Nodes are never freed.
- `DirectoryTree.ListingLines` and `DirectoryTree.PwdSegments` assume
  that names hold no newline and no "/" respectively. The source does not
  restrict names, and without that assumption splitting the output is
  ambiguous. What `ls` and `pwd` return is stated without this assumption,
  in `Files.FileSystem.Ls` and `Files.FileSystem.Pwd`.
- `Files.FileSystem.Pwd` promises "/" at the root but not the converse. A
  non-root node with the empty name also prints as "/", and the source
  allows such a node.
