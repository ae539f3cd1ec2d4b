/** Extraction of one line of text for each outermost block element of a document. */
module Extract {
  import opened Text

  /** The parsed document: `block` says whether the block selector matches the element. */
  datatype Node = TextNode(text: string) | Element(block: bool, children: seq<Node>)

  /** Where an element is: which child to take at each step down from the container. */
  type Path = seq<nat>

  predicate IsPrefix(a: Path, b: Path) {
    |a| <= |b| && b[..|a|] == a
  }

  predicate IsAncestor(a: Path, b: Path) {
    |a| < |b| && b[..|a|] == a
  }

  /** The elements that the block selector matches among `nodes`, the children of `at` from the `k`-th
      on, in document order. */
  function BlockPaths(nodes: seq<Node>, at: Path, k: nat): seq<Path>
    decreases nodes
  {
    if nodes == [] then [] else NodeBlocks(nodes[0], at + [k]) + BlockPaths(nodes[1..], at, k + 1)
  }

  function NodeBlocks(node: Node, at: Path): seq<Path>
    decreases node
  {
    match node
    case TextNode(_) => []
    case Element(block, children) => (if block then [at] else []) + BlockPaths(children, at, 0)
  }

  /** Emit a block and stop, else look among the children. */
  function Outermost(nodes: seq<Node>, at: Path, k: nat): seq<Path>
    decreases nodes
  {
    if nodes == [] then [] else NodeOutermost(nodes[0], at + [k]) + Outermost(nodes[1..], at, k + 1)
  }

  function NodeOutermost(node: Node, at: Path): seq<Path>
    decreases node
  {
    match node
    case TextNode(_) => []
    case Element(block, children) => if block then [at] else Outermost(children, at, 0)
  }

  // ----- Text -----

  /** The text of an element: that of everything in it, in order. */
  function TextOf(node: Node): string
    decreases node
  {
    match node
    case TextNode(text) => text
    case Element(_, children) => TextOfAll(children)
  }

  function TextOfAll(nodes: seq<Node>): string
    decreases nodes
  {
    if nodes == [] then "" else TextOf(nodes[0]) + TextOfAll(nodes[1..])
  }

  /** White space and the control characters that count as such. */
  predicate IsBlank(c: char) {
    IsSpace(c) || c < ' ' || '\U{007F}' <= c <= '\U{009F}'
  }

  function Words(s: string): seq<string> {
    Runs(s, IsBlank)
  }

  /** Each run of blanks becomes one space, none at the ends. */
  function Normalize(s: string): string {
    var words := Words(s);
    if words == [] then "" else Join(words, ' ')
  }

  /** The element at a path from `node`. */
  function At(node: Node, path: Path): Node {
    if path == [] then node
    else if node.Element? && path[0] < |node.children| then At(node.children[path[0]], path[1..])
    else TextNode("")
  }

  function TextAt(container: seq<Node>, path: Path): string {
    TextOf(At(Element(false, container), path))
  }

  /** One line for each of the paths, empty lines left out. */
  function LinesAt(nodes: seq<Node>, paths: seq<Path>): seq<string> {
    if paths == [] then []
    else
      var text := Normalize(TextAt(nodes, paths[0]));
      (if text == "" then [] else [text]) + LinesAt(nodes, paths[1..])
  }

  // ----- The loop -----

  ghost predicate Covered(path: Path, emitted: set<Path>) {
    exists a :: a in emitted && IsAncestor(a, path)
  }

  /** What the loop keeps of `paths` when `emitted` have been kept already. */
  ghost function Keep(paths: seq<Path>, emitted: set<Path>): seq<Path> {
    if paths == [] then []
    else if Covered(paths[0], emitted) then Keep(paths[1..], emitted)
    else [paths[0]] + Keep(paths[1..], emitted + {paths[0]})
  }

  method HasEmittedAncestor(path: Path, emitted: set<Path>) returns (covered: bool)
    ensures covered <==> Covered(path, emitted)
  {
    covered := false;
    var n := |path|;
    while n > 0 && !covered
      invariant 0 <= n <= |path|
      invariant covered ==> Covered(path, emitted)
      invariant !covered ==> forall a :: a in emitted && IsAncestor(a, path) ==> |a| < n
    {
      n := n - 1;
      if path[..n] in emitted {
        assert IsAncestor(path[..n], path);
        covered := true;
      }
    }
  }

  method ExtractBlockLines(container: seq<Node>) returns (lines: seq<string>)
    ensures lines == LinesAt(container, Outermost(container, [], 0))
  {
    var blocks := BlockPaths(container, [], 0);
    var emitted: set<Path> := {};
    lines := [];
    ghost var kept: seq<Path> := [];
    var i := 0;
    hide *;
    assert blocks[0..] == blocks && [] + Keep(blocks, {}) == Keep(blocks, {});
    NoLines(container);
    while i < |blocks|
      invariant 0 <= i <= |blocks|
      invariant kept + Keep(blocks[i..], emitted) == Keep(blocks, {})
      invariant lines == LinesAt(container, kept)
    {
      KeepStep(blocks, i, emitted);
      var covered := HasEmittedAncestor(blocks[i], emitted);
      if !covered {
        KeptStep(kept, blocks[i], Keep(blocks[i + 1..], emitted + {blocks[i]}));
        emitted := emitted + {blocks[i]};
        LinesStep(container, kept, blocks[i]);
        kept := kept + [blocks[i]];
        var text := Normalize(TextAt(container, blocks[i]));
        if text != "" {
          lines := lines + [text];
        }
      }
      i := i + 1;
    }
    KeepNone(emitted);
    assert blocks[i..] == [] && kept + [] == kept;
    LoopKeepsOutermost(container);
  }

  lemma NoLines(container: seq<Node>)
    ensures LinesAt(container, []) == []
  {
  }

  lemma KeepNone(emitted: set<Path>)
    ensures Keep([], emitted) == []
  {
  }

  lemma KeptStep(kept: seq<Path>, path: Path, rest: seq<Path>)
    ensures kept + ([path] + rest) == kept + [path] + rest
  {
  }

  lemma KeepStep(blocks: seq<Path>, i: nat, emitted: set<Path>)
    requires i < |blocks|
    ensures Keep(blocks[i..], emitted)
         == if Covered(blocks[i], emitted) then Keep(blocks[i + 1..], emitted)
            else [blocks[i]] + Keep(blocks[i + 1..], emitted + {blocks[i]})
  {
    hide Covered;
    assert blocks[i..][0] == blocks[i] && blocks[i..][1..] == blocks[i + 1..];
  }

  lemma LinesStep(container: seq<Node>, kept: seq<Path>, path: Path)
    ensures var text := Normalize(TextAt(container, path));
            LinesAt(container, kept + [path]) == LinesAt(container, kept) + (if text == "" then [] else [text])
  {
    hide Normalize, TextAt;
    LinesConcat(container, kept, [path]);
    assert LinesAt(container, [path][1..]) == [];
  }

  lemma {:induction false} LinesConcat(nodes: seq<Node>, a: seq<Path>, b: seq<Path>)
    ensures LinesAt(nodes, a + b) == LinesAt(nodes, a) + LinesAt(nodes, b)
  {
    if a == [] {
      assert a + b == b;
    } else {
      assert (a + b)[1..] == a[1..] + b;
      LinesConcat(nodes, a[1..], b);
    }
  }

  // ----- The loop emits the outermost blocks -----

  /** What the loop has emitted once it has kept all of `kept`. */
  ghost function Emitted(kept: seq<Path>, emitted: set<Path>): set<Path> {
    emitted + (set p | p in kept)
  }

  lemma {:induction false} KeepConcat(a: seq<Path>, b: seq<Path>, emitted: set<Path>)
    ensures Keep(a + b, emitted) == Keep(a, emitted) + Keep(b, Emitted(Keep(a, emitted), emitted))
  {
    hide Covered;
    if a == [] {
      assert a + b == b;
      assert Emitted([], emitted) == emitted;
    } else {
      assert (a + b)[1..] == a[1..] + b;
      if Covered(a[0], emitted) {
        KeepConcat(a[1..], b, emitted);
      } else {
        var rest := Keep(a[1..], emitted + {a[0]});
        KeepConcat(a[1..], b, emitted + {a[0]});
        assert Emitted([a[0]] + rest, emitted) == Emitted(rest, emitted + {a[0]});
      }
    }
  }

  /** Nothing below a kept element is kept. */
  lemma {:induction false} NothingBelow(paths: seq<Path>, a: Path, emitted: set<Path>)
    requires a in emitted && forall p :: p in paths ==> IsAncestor(a, p)
    ensures Keep(paths, emitted) == []
  {
    if paths != [] {
      assert paths[0] in paths && Covered(paths[0], emitted);
      assert forall p :: p in paths[1..] ==> p in paths;
      NothingBelow(paths[1..], a, emitted);
    }
  }

  /** The path is at or below one of the children of `at` from the `k`-th on. */
  predicate Below(path: Path, at: Path, k: nat) {
    |at| < |path| && path[..|at|] == at && path[|at|] >= k
  }

  lemma {:induction false} BlocksBelow(nodes: seq<Node>, at: Path, k: nat)
    ensures forall p :: p in BlockPaths(nodes, at, k) ==> Below(p, at, k)
    decreases nodes
  {
    if nodes != [] {
      NodeBlocksBelow(nodes[0], at + [k]);
      BlocksBelow(nodes[1..], at, k + 1);
      forall p | p in NodeBlocks(nodes[0], at + [k]) ensures Below(p, at, k) {
        assert p[..|at|] == p[..|at| + 1][..|at|] == at;
        assert p[|at|] == p[..|at| + 1][|at|] == k;
      }
    }
  }

  lemma {:induction false} NodeBlocksBelow(node: Node, at: Path)
    ensures forall p :: p in NodeBlocks(node, at) ==> IsPrefix(at, p)
    decreases node
  {
    if node.Element? {
      BlocksBelow(node.children, at, 0);
    }
  }

  lemma {:induction false} OutermostAreBlocks(nodes: seq<Node>, at: Path, k: nat)
    ensures forall p :: p in Outermost(nodes, at, k) ==> p in BlockPaths(nodes, at, k)
    decreases nodes
  {
    if nodes != [] {
      if nodes[0].Element? && !nodes[0].block {
        OutermostAreBlocks(nodes[0].children, at + [k], 0);
      }
      assert forall p :: p in NodeOutermost(nodes[0], at + [k]) ==> p in NodeBlocks(nodes[0], at + [k]);
      OutermostAreBlocks(nodes[1..], at, k + 1);
    }
  }

  /** No kept element is at `path`, above it or below it. */
  ghost predicate Free(path: Path, emitted: set<Path>) {
    forall a :: a in emitted ==> !IsPrefix(a, path) && !IsPrefix(path, a)
  }

  lemma ChildrenAreFree(at: Path, j: nat, emitted: set<Path>)
    requires Free(at, emitted)
    ensures Free(at + [j], emitted)
  {
    assert (at + [j])[..|at|] == at;
    forall a | a in emitted ensures !IsPrefix(a, at + [j]) && !IsPrefix(at + [j], a) {
      assert |a| <= |at| ==> (at + [j])[..|a|] == at[..|a|];
      assert |at| < |a| ==> a[..|at| + 1][..|at|] == a[..|at|];
    }
  }

  lemma {:induction false} KeepNodes(nodes: seq<Node>, at: Path, k: nat, emitted: set<Path>)
    requires forall j: nat :: k <= j ==> Free(at + [j], emitted)
    ensures Keep(BlockPaths(nodes, at, k), emitted) == Outermost(nodes, at, k)
    decreases nodes
  {
    if nodes != [] {
      var first, rest := NodeBlocks(nodes[0], at + [k]), BlockPaths(nodes[1..], at, k + 1);
      KeepConcat(first, rest, emitted);
      KeepNode(nodes[0], at + [k], emitted);
      var kept := NodeOutermost(nodes[0], at + [k]);
      forall j: nat | k + 1 <= j ensures Free(at + [j], Emitted(kept, emitted)) {
        SiblingsStayFree(nodes[0], at, k, j, emitted);
      }
      KeepNodes(nodes[1..], at, k + 1, Emitted(kept, emitted));
    }
  }

  lemma SiblingsStayFree(node: Node, at: Path, k: nat, j: nat, emitted: set<Path>)
    requires k < j && Free(at + [j], emitted)
    ensures Free(at + [j], Emitted(NodeOutermost(node, at + [k]), emitted))
  {
    NodeOutermostBelow(node, at + [k]);
    forall a | a in NodeOutermost(node, at + [k]) ensures !IsPrefix(a, at + [j]) && !IsPrefix(at + [j], a) {
      assert a[|at|] == a[..|at| + 1][|at|] == k;
    }
  }

  lemma NodeOutermostBelow(node: Node, at: Path)
    ensures forall p :: p in NodeOutermost(node, at) ==> IsPrefix(at, p)
  {
    if node.Element? && !node.block {
      OutermostAreBlocks(node.children, at, 0);
      BlocksBelow(node.children, at, 0);
    }
  }

  lemma {:induction false} KeepNode(node: Node, at: Path, emitted: set<Path>)
    requires Free(at, emitted)
    ensures Keep(NodeBlocks(node, at), emitted) == NodeOutermost(node, at)
    decreases node
  {
    if node.Element? {
      var inner := BlockPaths(node.children, at, 0);
      if node.block {
        assert !Covered(at, emitted);
        assert ([at] + inner)[1..] == inner;
        BlocksBelow(node.children, at, 0);
        NothingBelow(inner, at, emitted + {at});
      } else {
        assert [] + inner == inner;
        forall j: nat ensures Free(at + [j], emitted) {
          ChildrenAreFree(at, j, emitted);
        }
        KeepNodes(node.children, at, 0, emitted);
      }
    }
  }

  /** The loop with its check of the ancestors emits what the recursion emits. */
  lemma LoopKeepsOutermost(container: seq<Node>)
    ensures Keep(BlockPaths(container, [], 0), {}) == Outermost(container, [], 0)
  {
    KeepNodes(container, [], 0, {});
  }

  // ----- Document order and nesting -----

  /** The paths part at some step, `a` taking the earlier child: neither is within the other. */
  ghost predicate Before(a: Path, b: Path) {
    exists i :: PartAt(a, b, i)
  }

  predicate PartAt(a: Path, b: Path, i: nat) {
    i < |a| && i < |b| && a[..i] == b[..i] && a[i] < b[i]
  }

  /** Document order: ancestors first, then earlier subtrees. */
  ghost predicate InOrder(paths: seq<Path>) {
    forall i, j :: 0 <= i < j < |paths| ==> IsAncestor(paths[i], paths[j]) || Before(paths[i], paths[j])
  }

  ghost predicate InDisjointOrder(paths: seq<Path>) {
    forall i, j :: 0 <= i < j < |paths| ==> Before(paths[i], paths[j])
  }

  lemma SiblingsInOrder(a: Path, b: Path, at: Path, k: nat)
    requires IsPrefix(at + [k], a) && Below(b, at, k + 1)
    ensures Before(a, b)
  {
    assert a[..|at|] == a[..|at| + 1][..|at|] == at;
    assert a[|at|] == a[..|at| + 1][|at|] == k;
    assert PartAt(a, b, |at|);
  }

  lemma {:induction false} BlocksInOrder(nodes: seq<Node>, at: Path, k: nat)
    ensures InOrder(BlockPaths(nodes, at, k))
    decreases nodes
  {
    if nodes != [] {
      var first, rest := NodeBlocks(nodes[0], at + [k]), BlockPaths(nodes[1..], at, k + 1);
      NodeBlocksInOrder(nodes[0], at + [k]);
      BlocksInOrder(nodes[1..], at, k + 1);
      NodeBlocksBelow(nodes[0], at + [k]);
      BlocksBelow(nodes[1..], at, k + 1);
      forall i, j | 0 <= i < |first| && 0 <= j < |rest| ensures Before(first[i], rest[j]) {
        assert first[i] in first && rest[j] in rest;
        SiblingsInOrder(first[i], rest[j], at, k);
      }
      hide Before, IsAncestor, BlockPaths;
      OrdersConcat(first, rest);
    }
  }

  lemma OrdersConcat(a: seq<Path>, b: seq<Path>)
    requires InOrder(a) && InOrder(b)
    requires forall i, j :: 0 <= i < |a| && 0 <= j < |b| ==> Before(a[i], b[j])
    ensures InOrder(a + b)
  {
    hide Before, IsAncestor;
  }

  lemma {:induction false} NodeBlocksInOrder(node: Node, at: Path)
    ensures InOrder(NodeBlocks(node, at))
    decreases node
  {
    if node.Element? {
      BlocksInOrder(node.children, at, 0);
      if node.block {
        BlocksBelow(node.children, at, 0);
        var inner := BlockPaths(node.children, at, 0);
        forall j | 0 <= j < |inner| ensures IsAncestor(at, inner[j]) {
          assert inner[j] in inner;
        }
        hide Before, IsAncestor, BlockPaths;
      } else {
        assert [] + BlockPaths(node.children, at, 0) == BlockPaths(node.children, at, 0);
      }
    }
  }

  /** What is emitted comes in document order, and no emitted block is within another. */
  lemma {:induction false} OutermostInDisjointOrder(nodes: seq<Node>, at: Path, k: nat)
    ensures InDisjointOrder(Outermost(nodes, at, k))
    decreases nodes
  {
    if nodes != [] {
      var first, rest := NodeOutermost(nodes[0], at + [k]), Outermost(nodes[1..], at, k + 1);
      if nodes[0].Element? && !nodes[0].block {
        OutermostInDisjointOrder(nodes[0].children, at + [k], 0);
      }
      OutermostInDisjointOrder(nodes[1..], at, k + 1);
      NodeOutermostBelow(nodes[0], at + [k]);
      OutermostAreBlocks(nodes[1..], at, k + 1);
      BlocksBelow(nodes[1..], at, k + 1);
      forall i, j | 0 <= i < |first| && 0 <= j < |rest| ensures Before(first[i], rest[j]) {
        assert first[i] in first && rest[j] in rest;
        SiblingsInOrder(first[i], rest[j], at, k);
      }
      hide Before, BlockPaths;
    }
  }

  lemma BeforeIsDisjoint(a: Path, b: Path, c: Path)
    requires Before(a, b)
    ensures !IsPrefix(a, b) && !IsPrefix(b, a)
    ensures !(IsPrefix(a, c) && IsPrefix(b, c))
  {
    var i: nat :| PartAt(a, b, i);
    assert IsPrefix(a, c) ==> c[..|a|][i] == a[i];
    assert IsPrefix(b, c) ==> c[..|b|][i] == b[i];
  }

  lemma {:induction false} SomeCover(nodes: seq<Node>, at: Path, k: nat, path: Path) returns (a: Path)
    requires path in BlockPaths(nodes, at, k)
    ensures a in Outermost(nodes, at, k) && IsPrefix(a, path)
    decreases nodes
  {
    var inFirst := path in NodeBlocks(nodes[0], at + [k]);
    if inFirst {
      NodeBlocksBelow(nodes[0], at + [k]);
      if nodes[0].block {
        a := at + [k];
      } else {
        a := SomeCover(nodes[0].children, at + [k], 0, path);
      }
    } else {
      a := SomeCover(nodes[1..], at, k + 1, path);
    }
  }

  /** Every block element is at or below exactly one of the emitted ones. */
  lemma CoveredOnce(container: seq<Node>, path: Path) returns (i: nat)
    requires path in BlockPaths(container, [], 0)
    ensures var emitted := Outermost(container, [], 0);
            i < |emitted| && forall j :: 0 <= j < |emitted| ==> (IsPrefix(emitted[j], path) <==> j == i)
  {
    var emitted := Outermost(container, [], 0);
    var a := SomeCover(container, [], 0, path);
    i :| 0 <= i < |emitted| && emitted[i] == a;
    OutermostInDisjointOrder(container, [], 0);
    hide Outermost, BlockPaths, Before, IsPrefix;
    forall j | 0 <= j < |emitted| ensures IsPrefix(emitted[j], path) <==> j == i {
      if j < i {
        BeforeIsDisjoint(emitted[j], emitted[i], path);
      } else if i < j {
        BeforeIsDisjoint(emitted[i], emitted[j], path);
      }
    }
  }

  lemma PrefixChain(a: Path, b: Path, c: Path)
    requires IsPrefix(a, b) && IsPrefix(b, c)
    ensures IsPrefix(a, c)
  {
    assert c[..|a|] == c[..|b|][..|a|];
  }

  ghost predicate HasBlockAbove(container: seq<Node>, path: Path) {
    exists a :: a in BlockPaths(container, [], 0) && IsAncestor(a, path)
  }

  lemma EmittedHaveNoneAbove(container: seq<Node>, path: Path)
    requires path in Outermost(container, [], 0)
    ensures !HasBlockAbove(container, path)
  {
    OutermostAreBlocks(container, [], 0);
    if a :| a in BlockPaths(container, [], 0) && IsAncestor(a, path) {
      var emitted := Outermost(container, [], 0);
      var i := CoveredOnce(container, path);
      var j := CoveredOnce(container, a);
      PrefixChain(emitted[j], a, path);
    }
  }

  /** The emitted elements are the blocks with no block above them. */
  lemma EmittedIffOutermost(container: seq<Node>, path: Path)
    ensures path in Outermost(container, [], 0)
       <==> (path in BlockPaths(container, [], 0) && !HasBlockAbove(container, path))
  {
    OutermostAreBlocks(container, [], 0);
    if path in Outermost(container, [], 0) {
      EmittedHaveNoneAbove(container, path);
    } else if path in BlockPaths(container, [], 0) {
      var a := SomeCover(container, [], 0, path);
      assert path[..|path|] == path;
      assert IsAncestor(a, path);
    }
  }

  // ----- Blocks by position -----

  /** A block element stands at `path`. */
  predicate IsBlockAt(nodes: seq<Node>, path: Path) {
    && path != [] && path[0] < |nodes| && nodes[path[0]].Element?
    && if |path| == 1 then nodes[path[0]].block else IsBlockAt(nodes[path[0]].children, path[1..])
  }

  /** The search finds exactly the block elements below the container. */
  lemma FindsAllBlocks(container: seq<Node>, path: Path)
    ensures path in BlockPaths(container, [], 0) <==> IsBlockAt(container, path)
  {
    FindsAll(container, [], 0, path);
    assert [] + path == path;
    assert path != [] ==> [path[0] - 0] + path[1..] == path;
  }

  lemma NothingThere(path: Path)
    ensures !IsBlockAt([], path)
  {
  }

  lemma FirstSibling(nodes: seq<Node>, path: Path)
    requires nodes != []
    ensures IsBlockAt(nodes, [0] + path)
       <==> (nodes[0].Element? && if path == [] then nodes[0].block else IsBlockAt(nodes[0].children, path))
  {
    assert ([0] + path)[1..] == path;
  }

  lemma LaterSibling(nodes: seq<Node>, n: nat, path: Path)
    requires nodes != [] && n > 0
    ensures IsBlockAt(nodes, [n] + path) <==> IsBlockAt(nodes[1..], [n - 1] + path)
  {
    assert ([n] + path)[1..] == path && ([n - 1] + path)[1..] == path;
  }

  lemma FirstOrRest(nodes: seq<Node>, at: Path, k: nat, p: Path)
    requires nodes != []
    ensures p in BlockPaths(nodes, at, k)
       <==> p in NodeBlocks(nodes[0], at + [k]) || p in BlockPaths(nodes[1..], at, k + 1)
  {
    hide NodeBlocks;
  }

  /** What is found among the children from the `k`-th on is at or below one of them. */
  lemma FoundBelow(nodes: seq<Node>, at: Path, k: nat, path: Path)
    requires at + path in BlockPaths(nodes, at, k)
    ensures path != [] && path[0] >= k
  {
    BlocksBelow(nodes, at, k);
    hide BlockPaths;
    assert (at + path)[|at|] == path[0];
  }

  lemma FoundInNode(node: Node, at: Path, k: nat, path: Path)
    requires at + path in NodeBlocks(node, at + [k])
    ensures path != [] && path[0] == k
  {
    NodeBlocksBelow(node, at + [k]);
    hide NodeBlocks;
    assert (at + path)[..|at| + 1][|at|] == k;
  }

  lemma {:induction false} FindsAll(nodes: seq<Node>, at: Path, k: nat, path: Path)
    ensures at + path in BlockPaths(nodes, at, k)
       <==> (path != [] && path[0] >= k && IsBlockAt(nodes, [path[0] - k] + path[1..]))
    decreases nodes
  {
    if nodes == [] {
      hide IsBlockAt;
      if path != [] && path[0] >= k {
        NothingThere([path[0] - k] + path[1..]);
      }
    } else {
      hide *;
      FirstOrRest(nodes, at, k, at + path);
      if at + path in NodeBlocks(nodes[0], at + [k]) {
        FoundInNode(nodes[0], at, k, path);
      }
      if at + path in BlockPaths(nodes[1..], at, k + 1) {
        FoundBelow(nodes[1..], at, k + 1, path);
      }
      if path != [] && path[0] == k {
        assert at + path == at + [k] + path[1..];
        FindsInNode(nodes[0], at + [k], path[1..]);
        FirstSibling(nodes, path[1..]);
      } else if path != [] && path[0] > k {
        FindsAll(nodes[1..], at, k + 1, path);
        LaterSibling(nodes, path[0] - k, path[1..]);
      }
    }
  }

  lemma {:induction false} FindsInNode(node: Node, at: Path, path: Path)
    ensures at + path in NodeBlocks(node, at)
       <==> (node.Element? && if path == [] then node.block else IsBlockAt(node.children, path))
    decreases node
  {
    if node.Element? {
      InNode(node, at, at + path);
      if path == [] {
        assert at + path == at;
        if at in BlockPaths(node.children, at, 0) {
          FoundBelow(node.children, at, 0, path);
        }
      } else {
        FindsAll(node.children, at, 0, path);
        assert [path[0] - 0] + path[1..] == path;
        assert at + path != at;
      }
      hide BlockPaths, NodeBlocks, IsBlockAt;
    }
  }

  lemma InNode(node: Node, at: Path, p: Path)
    requires node.Element?
    ensures p in NodeBlocks(node, at) <==> (node.block && p == at) || p in BlockPaths(node.children, at, 0)
  {
    hide BlockPaths;
  }

  // ----- What becomes of the text -----

  /** The text at or below block elements; `inside` if the node itself is below one. */
  function BlockText(node: Node, inside: bool): string
    decreases node
  {
    match node
    case TextNode(text) => if inside then text else ""
    case Element(block, children) => BlockTextAll(children, inside || block)
  }

  function BlockTextAll(nodes: seq<Node>, inside: bool): string
    decreases nodes
  {
    if nodes == [] then "" else BlockText(nodes[0], inside) + BlockTextAll(nodes[1..], inside)
  }

  /** The texts of the elements at the paths, one after the other. */
  function TextsAt(nodes: seq<Node>, paths: seq<Path>): string {
    if paths == [] then "" else TextAt(nodes, paths[0]) + TextsAt(nodes, paths[1..])
  }

  lemma {:induction false} InsideIsAll(nodes: seq<Node>)
    ensures BlockTextAll(nodes, true) == TextOfAll(nodes)
    decreases nodes
  {
    if nodes != [] {
      InsideIsAll(nodes[1..]);
      if nodes[0].Element? {
        InsideIsAll(nodes[0].children);
      }
    }
  }

  lemma {:induction false} TextsConcat(nodes: seq<Node>, a: seq<Path>, b: seq<Path>)
    ensures TextsAt(nodes, a + b) == TextsAt(nodes, a) + TextsAt(nodes, b)
  {
    if a == [] {
      assert a + b == b;
    } else {
      assert (a + b)[1..] == a[1..] + b;
      TextsConcat(nodes, a[1..], b);
    }
  }

  lemma {:induction false} AtChild(node: Node, at: Path, k: nat)
    requires At(node, at).Element? && k < |At(node, at).children|
    ensures At(node, at + [k]) == At(node, at).children[k]
  {
    if at == [] {
      assert at + [k] == [k] && [k][1..] == [];
    } else {
      assert (at + [k])[1..] == at[1..] + [k];
      AtChild(node.children[at[0]], at[1..], k);
    }
  }

  lemma {:induction false} EmittedTextFrom(container: seq<Node>, nodes: seq<Node>, at: Path, k: nat)
    requires var parent := At(Element(false, container), at);
             parent.Element? && k <= |parent.children| && nodes == parent.children[k..]
    ensures TextsAt(container, Outermost(nodes, at, k)) == BlockTextAll(nodes, false)
    decreases nodes
  {
    if nodes != [] {
      var root := Element(false, container);
      var parent := At(root, at);
      AtChild(root, at, k);
      assert nodes[0] == parent.children[k] && nodes[1..] == parent.children[k + 1..];
      EmittedTextFrom(container, nodes[1..], at, k + 1);
      EmittedTextIn(container, nodes[0], at + [k]);
      TextsConcat(container, NodeOutermost(nodes[0], at + [k]), Outermost(nodes[1..], at, k + 1));
    }
  }

  lemma {:induction false} EmittedTextIn(container: seq<Node>, node: Node, at: Path)
    requires At(Element(false, container), at) == node
    ensures TextsAt(container, NodeOutermost(node, at)) == BlockText(node, false)
    decreases node
  {
    if node.Element? {
      if node.block {
        InsideIsAll(node.children);
        assert [at][1..] == [] && TextsAt(container, []) == "";
        assert TextAt(container, at) + "" == TextAt(container, at);
      } else {
        assert node.children[0..] == node.children;
        EmittedTextFrom(container, node.children, at, 0);
      }
    }
  }

  /** The emitted elements hold all the text below block elements, once and in order. */
  lemma EmittedTextIsBlockText(container: seq<Node>)
    ensures TextsAt(container, Outermost(container, [], 0)) == BlockTextAll(container, false)
  {
    assert container[0..] == container;
    EmittedTextFrom(container, container, [], 0);
  }

  // ----- Lines and words -----

  function MainText(lines: seq<string>): string {
    if lines == [] then "" else Join(lines, '\n')
  }

  ghost predicate AreWords(words: seq<string>) {
    AreRuns(words, IsBlank)
  }

  lemma WordsSeparate(a: string, c: char, b: string)
    requires IsBlank(c)
    ensures Words(a + [c] + b) == Words(a) + Words(b)
  {
    RunsSeparate(a, c, b, IsBlank);
  }

  lemma {:induction false} WordsOfJoin(words: seq<string>)
    requires words != [] && AreWords(words)
    ensures Words(Join(words, ' ')) == words
  {
    assert words[0] in words;
    assert words[0] != "" && forall c :: c in words[0] ==> !IsBlank(c);
    OneRun(words[0], IsBlank);
    if |words| > 1 {
      assert forall w :: w in words[1..] ==> w in words;
      WordsOfJoin(words[1..]);
      SpaceIsBlank();
      WordsSeparate(words[0], ' ', Join(words[1..], ' '));
    }
  }

  lemma SpaceIsBlank()
    ensures IsBlank(' ') && IsBlank('\n')
  {
  }

  /** Normalising keeps the words. */
  lemma NormalizeKeepsWords(s: string)
    ensures Words(Normalize(s)) == Words(s)
    ensures Normalize(s) == "" <==> Words(s) == []
  {
    RunsAreRuns(s, IsBlank);
    if Words(s) != [] {
      WordsOfJoin(Words(s));
    }
    hide Words;
  }

  lemma {:induction false} NoLineBreak(words: seq<string>)
    requires words != [] && AreWords(words)
    ensures '\n' !in Join(words, ' ')
  {
    assert words[0] in words;
    SpaceIsBlank();
    hide IsBlank;
    if |words| > 1 {
      assert forall w :: w in words[1..] ==> w in words;
      NoLineBreak(words[1..]);
    }
  }

  lemma {:induction false} LinesAreLines(nodes: seq<Node>, paths: seq<Path>)
    ensures forall line :: line in LinesAt(nodes, paths) ==> line != "" && '\n' !in line
  {
    if paths != [] {
      LinesAreLines(nodes, paths[1..]);
      var text := TextAt(nodes, paths[0]);
      RunsAreRuns(text, IsBlank);
      hide Words, AreWords, TextAt;
      if Words(text) != [] {
        NoLineBreak(Words(text));
      }
    }
  }

  /** Splitting the main text at line breaks gives the lines back. */
  lemma MainTextSplits(container: seq<Node>)
    ensures var lines := LinesAt(container, Outermost(container, [], 0));
            lines != [] ==> Split(MainText(lines), '\n') == lines
  {
    var lines := LinesAt(container, Outermost(container, [], 0));
    LinesAreLines(container, Outermost(container, [], 0));
    if lines != [] {
      SplitJoin(lines, '\n');
    }
  }

  /** The words of the elements at the paths, in order. */
  function WordsAt(nodes: seq<Node>, paths: seq<Path>): seq<string> {
    if paths == [] then [] else Words(TextAt(nodes, paths[0])) + WordsAt(nodes, paths[1..])
  }

  lemma WordsOfFirstLine(line: string, rest: seq<string>)
    ensures Words(MainText([line] + rest)) == Words(line) + Words(MainText(rest))
  {
    hide Words, IsBlank;
    assert Words("") == [] by {
      NoWords();
    }
    if rest == [] {
      assert [line] + rest == [line] && Words(line) + [] == Words(line);
    } else {
      assert ([line] + rest)[1..] == rest;
      SpaceIsBlank();
      WordsSeparate(line, '\n', Join(rest, '\n'));
    }
  }

  lemma NoWords()
    ensures Words("") == []
  {
  }

  lemma {:induction false} WordsOfLines(nodes: seq<Node>, paths: seq<Path>)
    ensures Words(MainText(LinesAt(nodes, paths))) == WordsAt(nodes, paths)
  {
    hide Words, MainText, TextAt, Normalize;
    if paths == [] {
      NoText();
      NoWords();
    } else {
      var text := TextAt(nodes, paths[0]);
      var rest := LinesAt(nodes, paths[1..]);
      WordsOfLines(nodes, paths[1..]);
      NormalizeKeepsWords(text);
      if Normalize(text) == "" {
        assert LinesAt(nodes, paths) == rest;
        assert [] + WordsAt(nodes, paths[1..]) == WordsAt(nodes, paths[1..]);
      } else {
        WordsOfFirstLine(Normalize(text), rest);
      }
    }
  }

  lemma NoText()
    ensures MainText([]) == ""
  {
  }

  /** The main text has the words of the outermost blocks, no word lost, repeated or moved. */
  lemma MainTextKeepsWords(container: seq<Node>)
    ensures Words(MainText(LinesAt(container, Outermost(container, [], 0))))
         == WordsAt(container, Outermost(container, [], 0))
  {
    WordsOfLines(container, Outermost(container, [], 0));
  }
}
