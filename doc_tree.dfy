/**
 * The part of the ProseMirror document model the task-list rewrite uses: a
 * closed node type, child-index paths, node sizes in ProseMirror's position
 * units, resolved positions (`doc.resolve(pos)`) and the replacement of one
 * node of the tree.
 *
 * Sizes follow ProseMirror: a text node counts its characters, any other leaf
 * counts 1, and a node with content counts its content plus 2 (its opening
 * and closing tokens). A position inside a node's content is an offset from
 * the start of that content.
 */
module DocTree {

  /** The node types the rewrite distinguishes; every other type is `Atom` (a leaf) or `Block`. */
  datatype Kind =
    | Doc | Paragraph | Text | BulletList | OrderedList | ListItem | TaskList | TaskItem
    | Atom(name: string)
    | Block(name: string)

  /** An attribute value; the rewrite reads and writes only the task item's boolean `checked`. */
  datatype AttrValue = Flag(b: bool)

  /** A document node; `text` is used by text nodes only, `children` by non-leaf nodes only. */
  datatype Node = Node(kind: Kind, attrs: map<string, AttrValue>, children: seq<Node>, text: string)

  /** Child indices from the root down to a node: the path `[]` is the root itself. */
  type Path = seq<nat>

  /** A resolved position: the path to its parent node and the offset in that node's content. */
  datatype Cursor = Cursor(path: Path, offset: nat)

  predicate IsLeaf(k: Kind) {
    k == Text || k.Atom?
  }

  function NodeSize(n: Node): nat
    decreases n, 2
  {
    if n.kind == Text then |n.text|
    else if n.kind.Atom? then 1
    else 2 + SizesTo(n.children, |n.children|)
  }

  /** The total size of the first `i` nodes of a sequence of siblings. */
  function SizesTo(s: seq<Node>, i: nat): nat
    requires i <= |s|
    decreases s, i
  {
    if i == 0 then 0 else SizesTo(s, i - 1) + NodeSize(s[i - 1])
  }

  function ContentSize(n: Node): nat {
    SizesTo(n.children, |n.children|)
  }

  /** `node.textContent`: the text of all descendant text nodes, in order. */
  function TextContent(n: Node): string
    decreases n, 2
  {
    if n.kind == Text then n.text
    else if n.kind.Atom? then ""
    else TextsTo(n.children, |n.children|)
  }

  /** The text of the first `i` nodes of a sequence of siblings. */
  function TextsTo(s: seq<Node>, i: nat): string
    requires i <= |s|
    decreases s, i
  {
    if i == 0 then "" else TextsTo(s, i - 1) + TextContent(s[i - 1])
  }

  /** `p` leads from `n` through non-leaf nodes to a node of the tree. */
  predicate ValidPath(n: Node, p: Path)
    decreases p
  {
    p == [] || (!IsLeaf(n.kind) && p[0] < |n.children| && ValidPath(n.children[p[0]], p[1..]))
  }

  function NodeAt(n: Node, p: Path): Node
    requires ValidPath(n, p)
    decreases p
  {
    if p == [] then n else NodeAt(n.children[p[0]], p[1..])
  }

  predicate IsPrefix(a: Path, b: Path) {
    |a| <= |b| && b[..|a|] == a
  }

  /** A cursor of a resolved position: a path to a non-leaf node and an offset within its content. */
  predicate ValidCursor(doc: Node, c: Cursor) {
    ValidPath(doc, c.path) && !IsLeaf(NodeAt(doc, c.path).kind) && c.offset <= ContentSize(NodeAt(doc, c.path))
  }

  /** The ancestors of a node are reached by the prefixes of its path. */
  lemma {:induction false} PrefixValid(n: Node, p: Path, k: nat)
    requires ValidPath(n, p) && k <= |p|
    ensures ValidPath(n, p[..k])
    ensures k < |p| ==> !IsLeaf(NodeAt(n, p[..k]).kind) && p[k] < |NodeAt(n, p[..k]).children|
    decreases p
  {
    if k > 0 {
      PrefixValid(n.children[p[0]], p[1..], k - 1);
      assert p[..k][1..] == p[1..][..k - 1];
    }
  }

  /** The child on the path of an ancestor is the next ancestor. */
  lemma {:induction false} PrefixStep(n: Node, p: Path, k: nat)
    requires ValidPath(n, p) && k < |p|
    ensures ValidPath(n, p[..k]) && ValidPath(n, p[..k + 1]) && p[k] < |NodeAt(n, p[..k]).children|
    ensures NodeAt(n, p[..k]).children[p[k]] == NodeAt(n, p[..k + 1])
  {
    PrefixValid(n, p, k);
    PrefixValid(n, p, k + 1);
    assert p[..k + 1] == p[..k] + [p[k]];
    NodeAtAppend(n, p[..k], [p[k]]);
  }

  /** `$pos.node($pos.depth - up)`: the ancestor `up` levels above the node at `p`. */
  function Ancestor(n: Node, p: Path, up: nat): Node
    requires ValidPath(n, p) && up <= |p|
  {
    PrefixValid(n, p, |p| - up);
    NodeAt(n, p[..|p| - up])
  }

  /** Following `p` and then `q` reaches the node at `p + q`. */
  lemma {:induction false} NodeAtAppend(n: Node, p: Path, q: Path)
    requires ValidPath(n, p) && ValidPath(NodeAt(n, p), q)
    ensures ValidPath(n, p + q) && NodeAt(n, p + q) == NodeAt(NodeAt(n, p), q)
    decreases p
  {
    if p != [] {
      assert (p + q)[0] == p[0] && (p + q)[1..] == p[1..] + q;
      NodeAtAppend(n.children[p[0]], p[1..], q);
    } else {
      assert p + q == q;
    }
  }

  // ---------------------------------------------------------------------------
  // Positions

  lemma {:induction false} SizesMonotone(s: seq<Node>, i: nat, j: nat)
    requires i <= j <= |s|
    ensures SizesTo(s, i) <= SizesTo(s, j)
    decreases j - i
  {
    if i < j {
      SizesMonotone(s, i, j - 1);
    }
  }

  /** Sequences that agree on their first `i` nodes have the same size up to `i`. */
  lemma {:induction false} SizesToAgree(s: seq<Node>, t: seq<Node>, i: nat)
    requires i <= |s| && i <= |t| && forall k :: 0 <= k < i ==> s[k] == t[k]
    ensures SizesTo(s, i) == SizesTo(t, i)
  {
    if i > 0 {
      SizesToAgree(s, t, i - 1);
    }
  }

  /** The position just before the node at `p`, counted from the start of `n`'s content. */
  function Before(n: Node, p: Path): nat
    requires ValidPath(n, p) && p != []
    decreases p
  {
    SizesTo(n.children, p[0]) + (if |p| == 1 then 0 else 1 + Before(n.children[p[0]], p[1..]))
  }

  /** The position where the content of the node at `p` starts, counted from the start of `n`'s content. */
  function ContentStart(n: Node, p: Path): nat
    requires ValidPath(n, p)
    decreases p
  {
    if p == [] then 0 else SizesTo(n.children, p[0]) + 1 + ContentStart(n.children[p[0]], p[1..])
  }

  /** The integer position of a cursor (`$pos.pos`). */
  function Position(doc: Node, c: Cursor): nat
    requires ValidPath(doc, c.path)
  {
    ContentStart(doc, c.path) + c.offset
  }

  /** A node's content starts one token after the position before it. */
  lemma {:induction false} ContentStartAfterBefore(n: Node, p: Path)
    requires ValidPath(n, p) && p != []
    ensures ContentStart(n, p) == Before(n, p) + 1
    decreases p
  {
    if |p| > 1 {
      ContentStartAfterBefore(n.children[p[0]], p[1..]);
    }
  }

  lemma {:induction false} ContentStartAppend(n: Node, p: Path, q: Path)
    requires ValidPath(n, p) && ValidPath(NodeAt(n, p), q)
    ensures ValidPath(n, p + q)
    ensures ContentStart(n, p + q) == ContentStart(n, p) + ContentStart(NodeAt(n, p), q)
    decreases p
  {
    NodeAtAppend(n, p, q);
    if p != [] {
      assert (p + q)[1..] == p[1..] + q;
      assert (p + q)[0] == p[0];
      ContentStartAppend(n.children[p[0]], p[1..], q);
    } else {
      assert p + q == q;
    }
  }

  /**
   * `content.findIndex(pos)`: the index of the child in which `pos` falls and
   * the position where that child starts; a position on a boundary between two
   * children gives the index after it.
   */
  function FindIndex(n: Node, pos: nat): (r: (nat, nat))
    requires pos <= ContentSize(n)
    ensures r.0 <= |n.children| && r.1 == SizesTo(n.children, r.0) && r.1 <= pos
    ensures r.1 < pos ==> r.0 < |n.children| && pos < r.1 + NodeSize(n.children[r.0])
  {
    if pos == 0 then (0, 0)
    else if pos == ContentSize(n) then (|n.children|, pos)
    else FindIndexFrom(n, pos, 0, 0)
  }

  function FindIndexFrom(n: Node, pos: nat, i: nat, cur: nat): (r: (nat, nat))
    requires i <= |n.children| && cur == SizesTo(n.children, i) && cur <= pos < ContentSize(n)
    ensures r.0 <= |n.children| && r.1 == SizesTo(n.children, r.0) && r.1 <= pos
    ensures r.1 < pos ==> r.0 < |n.children| && pos < r.1 + NodeSize(n.children[r.0])
    decreases |n.children| - i
  {
    assert i < |n.children|;
    var end := cur + NodeSize(n.children[i]);
    if end >= pos then (if end == pos then (i + 1, end) else (i, cur))
    else FindIndexFrom(n, pos, i + 1, end)
  }

  /**
   * `doc.resolve(pos)`: descend into the child the position falls strictly
   * inside until it falls on a child boundary or inside a text node.
   */
  function Resolve(n: Node, pos: nat): Cursor
    requires pos <= ContentSize(n)
    decreases n
  {
    var (index, start) := FindIndex(n, pos);
    var rem := pos - start;
    if rem == 0 then Cursor([], pos)
    else
      var child := n.children[index];
      if child.kind == Text then Cursor([], pos)
      else
        var sub := Resolve(child, rem - 1);
        Cursor([index] + sub.path, sub.offset)
  }

  /** A position strictly inside child `i` makes `findIndex` pick `i`. */
  lemma {:induction false} FindIndexInside(n: Node, pos: nat, i: nat)
    requires i < |n.children|
    requires SizesTo(n.children, i) < pos < SizesTo(n.children, i) + NodeSize(n.children[i])
    ensures pos <= ContentSize(n)
    ensures FindIndex(n, pos) == (i, SizesTo(n.children, i))
  {
    SizesMonotone(n.children, i + 1, |n.children|);
    FindIndexFromInside(n, pos, i, 0);
  }

  lemma {:induction false} FindIndexFromInside(n: Node, pos: nat, i: nat, k: nat)
    requires i < |n.children| && k <= i
    requires SizesTo(n.children, i) < pos < SizesTo(n.children, i) + NodeSize(n.children[i])
    requires pos < ContentSize(n) && SizesTo(n.children, k) <= pos
    ensures FindIndexFrom(n, pos, k, SizesTo(n.children, k)) == (i, SizesTo(n.children, i))
    decreases i - k
  {
    SizesMonotone(n.children, k, i);
    if k < i {
      SizesMonotone(n.children, k + 1, i);
      FindIndexFromInside(n, pos, i, k + 1);
    }
  }

  /** The start of the content of the node at `p` resolves to that node at offset 0. */
  lemma {:induction false} ResolveContentStart(n: Node, p: Path)
    requires ValidPath(n, p) && !IsLeaf(NodeAt(n, p).kind)
    ensures ContentStart(n, p) <= ContentSize(n)
    ensures Resolve(n, ContentStart(n, p)) == Cursor(p, 0)
    decreases p
  {
    if p != [] {
      var i := p[0];
      var child := n.children[i];
      var q := p[1..];
      assert NodeAt(n, p) == NodeAt(child, q);
      ResolveContentStart(child, q);
      assert !IsLeaf(child.kind) by {
        if q == [] {
          assert NodeAt(n, p) == child;
        }
      }
      ResolveIntoChild(n, p, ContentStart(n, p), ContentStart(child, q));
    }
  }

  /** A position that the child at `p[0]` resolves to the start of `p[1..]` resolves to the start of `p` in the parent. */
  lemma {:induction false} ResolveIntoChild(n: Node, p: Path, pos: nat, local: nat)
    requires p != [] && p[0] < |n.children| && !IsLeaf(n.children[p[0]].kind)
    requires local <= ContentSize(n.children[p[0]]) && pos == SizesTo(n.children, p[0]) + 1 + local
    requires Resolve(n.children[p[0]], local) == Cursor(p[1..], 0)
    ensures pos <= ContentSize(n)
    ensures Resolve(n, pos) == Cursor(p, 0)
  {
    var i := p[0];
    assert NodeSize(n.children[i]) == 2 + ContentSize(n.children[i]);
    FindIndexInside(n, pos, i);
    ResolveStep(n, pos, i);
    assert pos - SizesTo(n.children, i) - 1 == local;
    assert [i] + p[1..] == p;
  }

  /** One step of `Resolve`: a position strictly inside a non-text child descends into it. */
  lemma {:induction false} ResolveStep(n: Node, pos: nat, i: nat)
    requires pos <= ContentSize(n) && i < |n.children| && n.children[i].kind != Text
    requires FindIndex(n, pos) == (i, SizesTo(n.children, i)) && SizesTo(n.children, i) < pos
    ensures pos - SizesTo(n.children, i) - 1 <= ContentSize(n.children[i])
    ensures
      var sub := Resolve(n.children[i], pos - SizesTo(n.children, i) - 1);
      Resolve(n, pos) == Cursor([i] + sub.path, sub.offset)
  {
  }

  // ---------------------------------------------------------------------------
  // Replacing a node

  /** The tree with the node at `p` replaced by `m` (`tr.replaceWith` over that node's range). */
  function ReplaceAt(n: Node, p: Path, m: Node): Node
    requires ValidPath(n, p)
    decreases p
  {
    if p == [] then m
    else n.(children := n.children[p[0] := ReplaceAt(n.children[p[0]], p[1..], m)])
  }

  /** The replacement sits at `p` afterwards. */
  lemma {:induction false} ReplaceAtPlaces(n: Node, p: Path, m: Node)
    requires ValidPath(n, p)
    ensures ValidPath(ReplaceAt(n, p, m), p) && NodeAt(ReplaceAt(n, p, m), p) == m
    decreases p
  {
    if p != [] {
      ReplaceAtPlaces(n.children[p[0]], p[1..], m);
    }
  }

  /** Every node off the replaced node's line of ancestors and descendants is unchanged. */
  lemma {:induction false} ReplaceAtFrame(n: Node, p: Path, m: Node, q: Path)
    requires ValidPath(n, p) && ValidPath(n, q)
    requires !IsPrefix(p, q) && !IsPrefix(q, p)
    ensures ValidPath(ReplaceAt(n, p, m), q) && NodeAt(ReplaceAt(n, p, m), q) == NodeAt(n, q)
    decreases p
  {
    assert p != [] && q != [];
    if p[0] != q[0] {
      assert ReplaceAt(n, p, m).children[q[0]] == n.children[q[0]];
    } else {
      ReplaceAtFrame(n.children[p[0]], p[1..], m, q[1..]);
    }
  }

  /**
   * Each ancestor of the replaced node keeps its type, attributes, text and
   * number of children, and all its children but the one on the path.
   */
  lemma {:induction false} ReplaceAtAncestors(n: Node, p: Path, m: Node, k: nat)
    requires ValidPath(n, p) && k < |p|
    ensures ValidPath(n, p[..k]) && ValidPath(ReplaceAt(n, p, m), p[..k])
    ensures
      var before := NodeAt(n, p[..k]);
      var after := NodeAt(ReplaceAt(n, p, m), p[..k]);
      && after.kind == before.kind && after.attrs == before.attrs && after.text == before.text
      && |after.children| == |before.children|
      && forall j :: 0 <= j < |before.children| && j != p[k] ==> after.children[j] == before.children[j]
    decreases p
  {
    PrefixValid(n, p, k);
    if k > 0 {
      ReplaceAtAncestors(n.children[p[0]], p[1..], m, k - 1);
      assert p[..k] == [p[0]] + p[1..][..k - 1];
      assert p[..k][1..] == p[1..][..k - 1];
    }
  }

  /** The position before the replaced node is unchanged: only later siblings and its own size can differ. */
  lemma {:induction false} ReplaceAtKeepsBefore(n: Node, p: Path, m: Node)
    requires ValidPath(n, p) && p != []
    ensures ValidPath(ReplaceAt(n, p, m), p) && Before(ReplaceAt(n, p, m), p) == Before(n, p)
    decreases p
  {
    ReplaceAtPlaces(n, p, m);
    var r := ReplaceAt(n, p, m);
    SizesToAgree(r.children, n.children, p[0]);
    if |p| > 1 {
      ReplaceAtKeepsBefore(n.children[p[0]], p[1..], m);
    }
  }
}
