/**
 * The ordered `Set<T>` of MyDS/set.h: a red-black tree (CLRS) with a shared BLACK sentinel.
 *
 * A subtree is a `Tree` value and `Nil` plays the sentinel. The parent links that the
 * fix-up loops climb are a `Path`: the frames from a node up to the root, each holding the
 * parent's colour and value, the sibling subtree, and the side the node hangs on. A node
 * together with its path (a zipper) identifies one position in the tree, so every pointer
 * step of the source (`z->parent`, `x->parent->right`, a rotation at a node) is a step on
 * that pair.
 */
module RbSet {

  datatype Color = Red | Black

  datatype Tree = Nil | Node(color: Color, left: Tree, value: int, right: Tree)

  /** The sentinel is BLACK. */
  function ColorOf(t: Tree): Color {
    if t.Nil? then Black else t.color
  }

  function Blacken(t: Tree): Tree {
    if t.Nil? then Nil else t.(color := Black)
  }

  function Inorder(t: Tree): seq<int> {
    match t
    case Nil => []
    case Node(_, l, v, r) => Inorder(l) + [v] + Inorder(r)
  }

  ghost predicate Ascending(s: seq<int>) {
    forall i, j :: 0 <= i < j < |s| ==> s[i] < s[j]
  }

  /** Number of BLACK nodes on the leftmost path down to the sentinel. */
  function BlackHeight(t: Tree): nat {
    match t
    case Nil => 0
    case Node(c, l, _, _) => BlackHeight(l) + (if c == Black then 1 else 0)
  }

  /** Invariant 4: every path from a node down to the sentinel has the same black count. */
  predicate Balanced(t: Tree) {
    match t
    case Nil => true
    case Node(_, l, _, r) => Balanced(l) && Balanced(r) && BlackHeight(l) == BlackHeight(r)
  }

  /** Invariant 3: no RED node has a RED child. */
  predicate RedOk(t: Tree) {
    match t
    case Nil => true
    case Node(c, l, _, r) =>
      RedOk(l) && RedOk(r) && (c == Red ==> ColorOf(l) == Black && ColorOf(r) == Black)
  }

  /** All invariants of a tree reachable from `root`: the root is BLACK, no red-red edge,
      equal black heights, and the in-order sequence strictly ascending. */
  ghost predicate IsRedBlack(t: Tree) {
    ColorOf(t) == Black && RedOk(t) && Balanced(t) && Ascending(Inorder(t))
  }

  /* ---------------------------------------------------------------- paths (parent links) */

  /** The parent of a node: its colour and value, the node's sibling, and on which side
      of the parent the node hangs. */
  datatype Frame =
    | LeftOf(color: Color, value: int, sibling: Tree)
    | RightOf(color: Color, value: int, sibling: Tree)

  /** The frames from a node's parent up to the root; `Top` is the root's parent `nil`. */
  datatype Path = Top | Up(frame: Frame, rest: Path)

  function Attach(t: Tree, f: Frame): Tree {
    match f
    case LeftOf(c, v, s) => Node(c, t, v, s)
    case RightOf(c, v, s) => Node(c, s, v, t)
  }

  /** The whole tree, rebuilt from a node and the path above it. */
  function Plug(t: Tree, p: Path): Tree
    decreases p
  {
    match p
    case Top => t
    case Up(f, rest) => Plug(Attach(t, f), rest)
  }

  function Depth(p: Path): nat {
    match p
    case Top => 0
    case Up(_, rest) => 1 + Depth(rest)
  }

  /** The values that come before the node's subtree in the in-order sequence. */
  function Before(p: Path): seq<int> {
    match p
    case Top => []
    case Up(LeftOf(_, _, _), rest) => Before(rest)
    case Up(RightOf(_, v, s), rest) => Before(rest) + Inorder(s) + [v]
  }

  /** The values that come after the node's subtree in the in-order sequence. */
  function After(p: Path): seq<int> {
    match p
    case Top => []
    case Up(LeftOf(_, v, s), rest) => [v] + Inorder(s) + After(rest)
    case Up(RightOf(_, _, _), rest) => After(rest)
  }

  lemma {:induction false} PlugInorder(t: Tree, p: Path)
    ensures Inorder(Plug(t, p)) == Before(p) + Inorder(t) + After(p)
    decreases p
  {
    match p
    case Top =>
    case Up(f, rest) =>
      PlugInorder(Attach(t, f), rest);
      if f.LeftOf? {
        PlugInorderLeft(t, f, rest);
      } else {
        PlugInorderRight(t, f, rest);
      }
  }

  lemma PlugInorderLeft(t: Tree, f: Frame, rest: Path)
    requires f.LeftOf?
    requires Inorder(Plug(Attach(t, f), rest)) == Before(rest) + Inorder(Attach(t, f)) + After(rest)
    ensures Inorder(Plug(t, Up(f, rest))) == Before(Up(f, rest)) + Inorder(t) + After(Up(f, rest))
  {
    var s := [f.value] + Inorder(f.sibling);
    calc {
      Inorder(Plug(t, Up(f, rest)));
      Before(rest) + Inorder(Attach(t, f)) + After(rest);
      Before(rest) + (Inorder(t) + s) + After(rest);
      { Regroup(Before(rest), Inorder(t), s, After(rest)); }
      Before(rest) + Inorder(t) + (s + After(rest));
    }
  }

  lemma PlugInorderRight(t: Tree, f: Frame, rest: Path)
    requires f.RightOf?
    requires Inorder(Plug(Attach(t, f), rest)) == Before(rest) + Inorder(Attach(t, f)) + After(rest)
    ensures Inorder(Plug(t, Up(f, rest))) == Before(Up(f, rest)) + Inorder(t) + After(Up(f, rest))
  {
    var s := Inorder(f.sibling) + [f.value];
    calc {
      Inorder(Plug(t, Up(f, rest)));
      Before(rest) + Inorder(Attach(t, f)) + After(rest);
      Before(rest) + (s + Inorder(t)) + After(rest);
      { Regroup(Before(rest), s, Inorder(t), After(rest)); }
      (Before(rest) + s) + Inorder(t) + After(rest);
    }
  }

  /** Regrouping a concatenation of four sequences. */
  lemma Regroup(a: seq<int>, b: seq<int>, c: seq<int>, d: seq<int>)
    ensures a + (b + c) + d == a + b + (c + d) == (a + b) + c + d
  {
  }

  /** Replacing a subtree by one with the same in-order sequence keeps the whole sequence. */
  lemma SameInorder(a: Tree, b: Tree, p: Path)
    requires Inorder(a) == Inorder(b)
    ensures Inorder(Plug(a, p)) == Inorder(Plug(b, p))
  {
    PlugInorder(a, p);
    PlugInorder(b, p);
  }

  /** Below the root, the root's colour does not depend on the subtree at the node. */
  lemma {:induction false} PlugRootColor(a: Tree, b: Tree, p: Path)
    requires p.Up?
    ensures ColorOf(Plug(a, p)) == ColorOf(Plug(b, p))
    decreases p
  {
    if p.rest.Up? {
      PlugRootColor(Attach(a, p.frame), Attach(b, p.frame), p.rest);
    }
  }

  /** Invariant 3 along a path: the siblings satisfy it, and no RED parent has a RED
      sibling child or a RED parent of its own. */
  predicate PathRedOk(p: Path) {
    match p
    case Top => true
    case Up(f, rest) =>
      RedOk(f.sibling) && PathRedOk(rest) &&
      (f.color == Red ==> ColorOf(f.sibling) == Black && (rest.Up? ==> rest.frame.color == Black))
  }

  /** Invariant 4 along a path, for a node whose black height is `h`. */
  predicate PathBalanced(p: Path, h: nat) {
    match p
    case Top => true
    case Up(f, rest) =>
      Balanced(f.sibling) && BlackHeight(f.sibling) == h &&
      PathBalanced(rest, h + (if f.color == Black then 1 else 0))
  }

  /** No red-red edge between the node and its parent. */
  predicate FitsParent(t: Tree, p: Path) {
    p.Up? && p.frame.color == Red ==> ColorOf(t) == Black
  }

  lemma {:induction false} PlugRedBlack(t: Tree, p: Path)
    requires RedOk(t) && Balanced(t) && FitsParent(t, p)
    requires PathRedOk(p) && PathBalanced(p, BlackHeight(t))
    ensures RedOk(Plug(t, p)) && Balanced(Plug(t, p))
    decreases p
  {
    match p
    case Top =>
    case Up(f, rest) =>
      PlugRedBlack(Attach(t, f), rest);
  }

  /** A position in a tree whose invariants 2-4 hold, split into node and path. */
  ghost predicate ValidAt(t: Tree, p: Path) {
    RedOk(t) && Balanced(t) && FitsParent(t, p) && PathRedOk(p) &&
    PathBalanced(p, BlackHeight(t)) && ColorOf(Plug(t, p)) == Black
  }

  /** Every value of the path lies below `v` on the left and above it on the right. */
  ghost predicate Straddles(p: Path, v: int) {
    (forall e :: e in Before(p) ==> e < v) && (forall e :: e in After(p) ==> v < e)
  }

  lemma AscendingParts(a: seq<int>, b: seq<int>, c: seq<int>)
    requires Ascending(a + b + c)
    ensures Ascending(a) && Ascending(b) && Ascending(c)
    ensures forall x, y :: x in a && y in b ==> x < y
    ensures forall x, y :: x in b && y in c ==> x < y
  {
    forall i, j | 0 <= i < j < |a| ensures a[i] < a[j] {
      assert a[i] == (a + b + c)[i] && a[j] == (a + b + c)[j];
    }
    forall i, j | 0 <= i < j < |b| ensures b[i] < b[j] {
      assert b[i] == (a + b + c)[|a| + i] && b[j] == (a + b + c)[|a| + j];
    }
    forall i, j | 0 <= i < j < |c| ensures c[i] < c[j] {
      assert c[i] == (a + b + c)[|a| + |b| + i] && c[j] == (a + b + c)[|a| + |b| + j];
    }
    forall x, y | x in a && y in b ensures x < y {
      var i :| 0 <= i < |a| && a[i] == x;
      var j :| 0 <= j < |b| && b[j] == y;
      assert (a + b + c)[i] == x && (a + b + c)[|a| + j] == y;
    }
    forall x, y | x in b && y in c ensures x < y {
      var i :| 0 <= i < |b| && b[i] == x;
      var j :| 0 <= j < |c| && c[j] == y;
      assert (a + b + c)[|a| + i] == x && (a + b + c)[|a| + |b| + j] == y;
    }
  }

  lemma AscendingJoin(a: seq<int>, b: seq<int>)
    requires Ascending(a) && Ascending(b)
    requires forall x, y :: x in a && y in b ==> x < y
    ensures Ascending(a + b)
  {
    forall i, j | 0 <= i < j < |a + b| ensures (a + b)[i] < (a + b)[j] {
      if j < |a| {
      } else if i >= |a| {
        assert (a + b)[i] == b[i - |a|] && (a + b)[j] == b[j - |a|];
      } else {
        assert (a + b)[i] in a && (a + b)[j] in b;
      }
    }
  }

  /** Stepping down to a child keeps invariants 2-4 at the new position. */
  lemma ValidDown(x: Tree, p: Path)
    requires x.Node? && ValidAt(x, p)
    ensures Plug(x.left, Up(LeftOf(x.color, x.value, x.right), p)) == Plug(x, p)
    ensures Plug(x.right, Up(RightOf(x.color, x.value, x.left), p)) == Plug(x, p)
    ensures ValidAt(x.left, Up(LeftOf(x.color, x.value, x.right), p))
    ensures ValidAt(x.right, Up(RightOf(x.color, x.value, x.left), p))
  {
    assert Attach(x.left, LeftOf(x.color, x.value, x.right)) == x;
    assert Attach(x.right, RightOf(x.color, x.value, x.left)) == x;
  }

  /** Stepping down on the side where `v` belongs keeps the values of the path on their
      sides of `v`. */
  lemma StraddlesDown(x: Tree, p: Path, v: int)
    requires x.Node? && x.value != v && Straddles(p, v)
    requires Ascending(Before(p) + Inorder(x) + After(p))
    ensures v < x.value ==> Straddles(Up(LeftOf(x.color, x.value, x.right), p), v)
    ensures x.value < v ==> Straddles(Up(RightOf(x.color, x.value, x.left), p), v)
  {
    AscendingParts(Before(p), Inorder(x), After(p));
    AscendingParts(Inorder(x.left), [x.value], Inorder(x.right));
    if v < x.value {
      var q := Up(LeftOf(x.color, x.value, x.right), p);
      assert After(q) == [x.value] + Inorder(x.right) + After(p);
      forall e | e in After(q) ensures v < e {
        if e in Inorder(x.right) {
          assert x.value in [x.value];
        }
      }
    } else {
      var q := Up(RightOf(x.color, x.value, x.left), p);
      assert Before(q) == Before(p) + Inorder(x.left) + [x.value];
      forall e | e in Before(q) ensures e < v {
        if e in Inorder(x.left) {
          assert x.value in [x.value];
        }
      }
    }
  }

  /**
   * The binary-search walk that insert and erase begin with (MyDS/set.h:283-293 and
   * 313-322): from the root, go left while `v` is smaller, right while it is larger, and
   * stop at the node holding `v` or at the sentinel where `v` would hang.
   */
  method Descend(root: Tree, v: int) returns (x: Tree, p: Path)
    requires IsRedBlack(root)
    ensures Plug(x, p) == root && ValidAt(x, p) && Straddles(p, v)
    ensures x.Nil? <==> v !in Inorder(root)
    ensures x.Node? ==> x.value == v
    ensures Ascending(Before(p) + Inorder(x) + After(p))
  {
    x, p := root, Top;
    PlugInorder(x, p);
    while x.Node? && x.value != v
      invariant Plug(x, p) == root && ValidAt(x, p) && Straddles(p, v)
      invariant Inorder(root) == Before(p) + Inorder(x) + After(p)
      invariant Ascending(Inorder(root))
      decreases x
    {
      ValidDown(x, p);
      StraddlesDown(x, p, v);
      if v < x.value {
        x, p := x.left, Up(LeftOf(x.color, x.value, x.right), p);
      } else {
        x, p := x.right, Up(RightOf(x.color, x.value, x.left), p);
      }
      PlugInorder(x, p);
    }
    MemberAtFocus(x, p, v);
  }

  lemma MemberAtFocus(x: Tree, p: Path, v: int)
    requires Straddles(p, v) && (x.Node? ==> x.value == v)
    ensures x.Nil? <==> v !in Before(p) + Inorder(x) + After(p)
  {
    if x.Node? {
      assert (Before(p) + Inorder(x) + After(p))[|Before(p)| + |Inorder(x.left)|] == v;
    }
  }

  /* ------------------------------------------------------------------------- rotations */

  /** `rotate_left(x)` (MyDS/set.h:45-61): x's right child y takes x's place, x becomes y's
      left child and adopts y's former left subtree; colours stay with their nodes. */
  function RotateLeft(t: Tree): (r: Tree)
    requires t.Node? && t.right.Node?
    ensures r.Node? && r.left.Node?
    ensures Inorder(r) == Inorder(t)
  {
    var y := t.right;
    Node(y.color, Node(t.color, t.left, t.value, y.left), y.value, y.right)
  }

  /** `rotate_right(x)` (MyDS/set.h:63-79): the mirror image of `RotateLeft`. */
  function RotateRight(t: Tree): (r: Tree)
    requires t.Node? && t.left.Node?
    ensures r.Node? && r.right.Node?
    ensures Inorder(r) == Inorder(t)
  {
    var y := t.left;
    Node(y.color, y.left, y.value, Node(t.color, y.right, t.value, t.right))
  }

  /** Rotating the subtree at any position keeps the whole in-order sequence; at the root
      (an empty path) the rotated subtree is the new root. */
  lemma RotationsKeepInorder(t: Tree, p: Path)
    requires t.Node?
    ensures t.right.Node? ==> Inorder(Plug(RotateLeft(t), p)) == Inorder(Plug(t, p))
    ensures t.left.Node? ==> Inorder(Plug(RotateRight(t), p)) == Inorder(Plug(t, p))
    ensures t.right.Node? && p == Top ==> Plug(RotateLeft(t), p) == RotateLeft(t)
    ensures t.left.Node? && p == Top ==> Plug(RotateRight(t), p) == RotateRight(t)
  {
    if t.right.Node? {
      SameInorder(RotateLeft(t), t, p);
    }
    if t.left.Node? {
      SameInorder(RotateRight(t), t, p);
    }
  }

  /* ------------------------------------------------------------------------ insert_fix */

  /** The state of `insert_fix`: the cursor `z` is a RED node and the only possible breach of
      the invariants is a RED parent above it; the root is BLACK unless `z` is the root. */
  ghost predicate FixingInsert(z: Tree, p: Path) {
    z.Node? && z.color == Red && RedOk(z) && Balanced(z) &&
    PathRedOk(p) && PathBalanced(p, BlackHeight(z)) &&
    (p.Up? ==> ColorOf(Plug(z, p)) == Black)
  }

  /** Replacing the subtree at a position by one with the same values and root colour keeps
      the whole in-order sequence and the root's colour. */
  lemma Replace(a: Tree, b: Tree, p: Path)
    requires Inorder(a) == Inorder(b) && ColorOf(a) == ColorOf(b)
    ensures Inorder(Plug(a, p)) == Inorder(Plug(b, p))
    ensures ColorOf(Plug(a, p)) == ColorOf(Plug(b, p))
  {
    SameInorder(a, b, p);
    if p.Up? {
      PlugRootColor(a, b, p);
    }
  }

  /** A RED parent is not the root, so the grandparent exists, and it is BLACK. */
  lemma GrandparentExists(z: Tree, p: Path)
    requires FixingInsert(z, p) && p.Up? && p.frame.color == Red
    ensures p.rest.Up? && p.rest.frame.color == Black
  {
    if p.rest.Top? {
      assert Plug(z, p) == Attach(z, p.frame);
    }
  }

  /** Uncle RED (MyDS/set.h:85-89, 101-105): parent and uncle turn BLACK, the grandparent
      RED, and the cursor moves up to the grandparent. */
  lemma InsertRecolor(z: Tree, parent: Frame, grand: Frame, rest: Path)
    requires FixingInsert(z, Up(parent, Up(grand, rest)))
    requires parent.color == Red && ColorOf(grand.sibling) == Red
    ensures var g := Attach(Attach(z, parent.(color := Black)), grand.(color := Red, sibling := Blacken(grand.sibling)));
      FixingInsert(g, rest) &&
      Inorder(Plug(g, rest)) == Inorder(Plug(z, Up(parent, Up(grand, rest))))
  {
    var p := Up(parent, Up(grand, rest));
    GrandparentExists(z, p);
    var h := BlackHeight(z);
    var u := grand.sibling;
    assert PathRedOk(Up(grand, rest)) && PathBalanced(Up(grand, rest), h);
    assert BlackHeight(u) == h && RedOk(u) && Balanced(u);
    assert BlackHeight(Blacken(u)) == h + 1 && RedOk(Blacken(u)) && Balanced(Blacken(u));
    var pb := Attach(z, parent.(color := Black));
    assert BlackHeight(pb) == h + 1 && RedOk(pb) && Balanced(pb);
    var g := Attach(pb, grand.(color := Red, sibling := Blacken(u)));
    assert RedOk(g) && Balanced(g) && BlackHeight(g) == h + 1;
    assert Inorder(Blacken(u)) == Inorder(u);
    assert Inorder(pb) == Inorder(Attach(z, parent));
    assert Inorder(g) == Inorder(Attach(Attach(z, parent), grand));
    assert Plug(z, p) == Plug(Attach(Attach(z, parent), grand), rest);
    SameInorder(g, Attach(Attach(z, parent), grand), rest);
    if rest.Up? {
      PlugRootColor(g, Attach(Attach(z, parent), grand), rest);
    }
  }

  /** Uncle BLACK, inner child (MyDS/set.h:91-94, 107-110): the cursor moves to the parent
      and the parent is rotated down, so that the cursor becomes an outer child. */
  lemma InsertInner(z: Tree, parent: Frame, grand: Frame, rest: Path)
    requires FixingInsert(z, Up(parent, Up(grand, rest)))
    requires parent.color == Red && ColorOf(grand.sibling) == Black
    ensures parent.RightOf? ==> var r := RotateLeft(Attach(z, parent));
      FixingInsert(r.left, Up(LeftOf(r.color, r.value, r.right), Up(grand, rest))) && r.color == Red &&
      Inorder(Plug(r.left, Up(LeftOf(r.color, r.value, r.right), Up(grand, rest)))) ==
        Inorder(Plug(z, Up(parent, Up(grand, rest))))
    ensures parent.LeftOf? ==> var r := RotateRight(Attach(z, parent));
      FixingInsert(r.right, Up(RightOf(r.color, r.value, r.left), Up(grand, rest))) && r.color == Red &&
      Inorder(Plug(r.right, Up(RightOf(r.color, r.value, r.left), Up(grand, rest)))) ==
        Inorder(Plug(z, Up(parent, Up(grand, rest))))
  {
    var p := Up(parent, Up(grand, rest));
    GrandparentExists(z, p);
    var h := BlackHeight(z);
    assert PathBalanced(Up(grand, rest), h);
    assert RedOk(parent.sibling) && Balanced(parent.sibling) && BlackHeight(parent.sibling) == h;
    assert ColorOf(parent.sibling) == Black;
    assert ColorOf(z.left) == Black && ColorOf(z.right) == Black;
    assert BlackHeight(z.left) == h && BlackHeight(z.right) == h;
    assert Plug(z, p) == Plug(Attach(Attach(z, parent), grand), rest);
    if parent.RightOf? {
      var r := RotateLeft(Attach(z, parent));
      var q := Up(LeftOf(r.color, r.value, r.right), Up(grand, rest));
      assert r.left == Node(Red, parent.sibling, parent.value, z.left);
      assert RedOk(r.left) && Balanced(r.left) && BlackHeight(r.left) == h;
      assert PathRedOk(q) && PathBalanced(q, h);
      assert Attach(r.left, LeftOf(r.color, r.value, r.right)) == r;
      assert Plug(r.left, q) == Plug(Attach(r, grand), rest);
      Replace(Attach(r, grand), Attach(Attach(z, parent), grand), rest);
    } else {
      var r := RotateRight(Attach(z, parent));
      var q := Up(RightOf(r.color, r.value, r.left), Up(grand, rest));
      assert r.right == Node(Red, z.right, parent.value, parent.sibling);
      assert RedOk(r.right) && Balanced(r.right) && BlackHeight(r.right) == h;
      assert PathRedOk(q) && PathBalanced(q, h);
      assert Attach(r.right, RightOf(r.color, r.value, r.left)) == r;
      assert Plug(r.right, q) == Plug(Attach(r, grand), rest);
      Replace(Attach(r, grand), Attach(Attach(z, parent), grand), rest);
    }
  }

  /** Uncle BLACK, outer child on the left (MyDS/set.h:95-97): the parent turns BLACK, the
      grandparent RED, and the grandparent is rotated right. The cursor's new parent is
      BLACK, which ends the loop. */
  lemma InsertOuterLeft(z: Tree, parent: Frame, grand: Frame, rest: Path)
    requires FixingInsert(z, Up(parent, Up(grand, rest)))
    requires parent.color == Red && ColorOf(grand.sibling) == Black
    requires parent.LeftOf? && grand.LeftOf?
    ensures var r := RotateRight(Attach(Attach(z, parent.(color := Black)), grand.(color := Red)));
      r.color == Black && FixingInsert(r.left, Up(LeftOf(r.color, r.value, r.right), rest)) &&
      Inorder(Plug(r.left, Up(LeftOf(r.color, r.value, r.right), rest))) ==
        Inorder(Plug(z, Up(parent, Up(grand, rest))))
  {
    var p := Up(parent, Up(grand, rest));
    GrandparentExists(z, p);
    var h := BlackHeight(z);
    var s, u := parent.sibling, grand.sibling;
    assert PathRedOk(Up(grand, rest)) && PathBalanced(Up(grand, rest), h);
    assert RedOk(s) && Balanced(s) && BlackHeight(s) == h && ColorOf(s) == Black;
    assert RedOk(u) && Balanced(u) && BlackHeight(u) == h;
    assert PathRedOk(rest) && PathBalanced(rest, h + 1);
    assert Plug(z, p) == Plug(Attach(Attach(z, parent), grand), rest);
    var r := RotateRight(Attach(Attach(z, parent.(color := Black)), grand.(color := Red)));
    assert r == Node(Black, z, parent.value, Node(Red, s, grand.value, u));
    assert RedOk(r.right) && Balanced(r.right) && BlackHeight(r.right) == h;
    assert Attach(r.left, LeftOf(r.color, r.value, r.right)) == r;
    Replace(r, Attach(Attach(z, parent), grand), rest);
  }

  /** Uncle BLACK, outer child on the right (MyDS/set.h:111-113): the mirror image. */
  lemma InsertOuterRight(z: Tree, parent: Frame, grand: Frame, rest: Path)
    requires FixingInsert(z, Up(parent, Up(grand, rest)))
    requires parent.color == Red && ColorOf(grand.sibling) == Black
    requires parent.RightOf? && grand.RightOf?
    ensures var r := RotateLeft(Attach(Attach(z, parent.(color := Black)), grand.(color := Red)));
      r.color == Black && FixingInsert(r.right, Up(RightOf(r.color, r.value, r.left), rest)) &&
      Inorder(Plug(r.right, Up(RightOf(r.color, r.value, r.left), rest))) ==
        Inorder(Plug(z, Up(parent, Up(grand, rest))))
  {
    var p := Up(parent, Up(grand, rest));
    GrandparentExists(z, p);
    var h := BlackHeight(z);
    var s, u := parent.sibling, grand.sibling;
    assert PathRedOk(Up(grand, rest)) && PathBalanced(Up(grand, rest), h);
    assert RedOk(s) && Balanced(s) && BlackHeight(s) == h && ColorOf(s) == Black;
    assert RedOk(u) && Balanced(u) && BlackHeight(u) == h;
    assert PathRedOk(rest) && PathBalanced(rest, h + 1);
    assert Plug(z, p) == Plug(Attach(Attach(z, parent), grand), rest);
    var r := RotateLeft(Attach(Attach(z, parent.(color := Black)), grand.(color := Red)));
    assert r == Node(Black, Node(Red, u, grand.value, s), parent.value, z);
    assert RedOk(r.left) && Balanced(r.left) && BlackHeight(r.left) == h;
    assert Attach(r.right, RightOf(r.color, r.value, r.left)) == r;
    Replace(r, Attach(Attach(z, parent), grand), rest);
  }

  /**
   * `insert_fix(z)` (MyDS/set.h:81-118): while the parent of the RED cursor is RED, recolour
   * or rotate according to the uncle's colour; finally make the root BLACK. The result is
   * a red-black tree with the same in-order sequence.
   */
  method InsertFix(z0: Tree, p0: Path) returns (t: Tree)
    requires FixingInsert(z0, p0)
    ensures ColorOf(t) == Black && RedOk(t) && Balanced(t)
    ensures Inorder(t) == Inorder(Plug(z0, p0))
  {
    var z, p := z0, p0;
    while p.Up? && p.frame.color == Red
      invariant FixingInsert(z, p)
      invariant Inorder(Plug(z, p)) == Inorder(Plug(z0, p0))
      decreases Depth(p)
    {
      GrandparentExists(z, p);
      var parent, grand, rest := p.frame, p.rest.frame, p.rest.rest;
      assert Depth(p) == Depth(rest) + 2;
      var uncle := grand.sibling;
      if ColorOf(uncle) == Red {
        InsertRecolor(z, parent, grand, rest);
        z, p := Attach(Attach(z, parent.(color := Black)), grand.(color := Red, sibling := Blacken(uncle))), rest;
      } else if grand.LeftOf? {
        if parent.RightOf? {
          InsertInner(z, parent, grand, rest);
          var r := RotateLeft(Attach(z, parent));
          z, p := r.left, Up(LeftOf(r.color, r.value, r.right), p.rest);
        }
        InsertOuterLeft(z, p.frame, grand, rest);
        var r := RotateRight(Attach(Attach(z, p.frame.(color := Black)), grand.(color := Red)));
        z, p := r.left, Up(LeftOf(r.color, r.value, r.right), rest);
      } else {
        if parent.LeftOf? {
          InsertInner(z, parent, grand, rest);
          var r := RotateRight(Attach(z, parent));
          z, p := r.right, Up(RightOf(r.color, r.value, r.left), p.rest);
        }
        InsertOuterRight(z, p.frame, grand, rest);
        var r := RotateLeft(Attach(Attach(z, p.frame.(color := Black)), grand.(color := Red)));
        z, p := r.right, Up(RightOf(r.color, r.value, r.left), rest);
      }
    }
    PlugRedBlack(z, p);
    t := Blacken(Plug(z, p));
  }

  /** Hanging a RED leaf where the descent ended and running `insert_fix`
      (MyDS/set.h:293-308): the tree is a red-black tree again with `v` in that place. */
  method InsertLeaf(p: Path, v: int) returns (t: Tree)
    requires ValidAt(Nil, p)
    ensures ColorOf(t) == Black && RedOk(t) && Balanced(t)
    ensures Inorder(t) == Before(p) + [v] + After(p)
  {
    var z := Node(Red, Nil, v, Nil);
    if p.Up? {
      PlugRootColor(z, Nil, p);
    }
    PlugInorder(z, p);
    t := InsertFix(z, p);
  }

  /* ------------------------------------------------------------------ find_min, erase */

  /** The path `q` (from a node up to some subtree's root) continued by the path `p` above
      that subtree's root. */
  function Append(q: Path, p: Path): Path {
    match q
    case Top => p
    case Up(f, rest) => Up(f, Append(rest, p))
  }

  lemma {:induction false} PlugAppend(t: Tree, q: Path, p: Path)
    ensures Plug(t, Append(q, p)) == Plug(Plug(t, q), p)
    decreases q
  {
    match q
    case Top =>
    case Up(f, rest) =>
      PlugAppend(Attach(t, f), rest, p);
  }

  /**
   * `find_min(node)` (MyDS/set.h:175-180): follow left links from `t` until the left child is
   * the sentinel. The node found holds the first value of `t`'s in-order sequence, and every
   * frame of the path walked hangs to the left.
   */
  method FindMin(t: Tree, ghost above: Path) returns (y: Tree, q: Path)
    requires t.Node? && ValidAt(t, above)
    ensures y.Node? && y.left.Nil?
    ensures Plug(y, q) == t && Before(q) == []
    ensures Inorder(t) == [y.value] + Inorder(y.right) + After(q)
    ensures ValidAt(y, Append(q, above))
  {
    y, q := t, Top;
    while y.left.Node?
      invariant y.Node? && Plug(y, q) == t && Before(q) == []
      invariant ValidAt(y, Append(q, above))
      decreases y
    {
      ValidDown(y, Append(q, above));
      y, q := y.left, Up(LeftOf(y.color, y.value, y.right), q);
    }
    PlugInorder(y, q);
  }

  /** Changing the value held by one frame of a path changes neither its colours nor its
      black heights. */
  lemma {:induction false} Revalue(q: Path, f: Frame, v: int, rest: Path, h: nat)
    ensures PathRedOk(Append(q, Up(f, rest))) == PathRedOk(Append(q, Up(f.(value := v), rest)))
    ensures PathBalanced(Append(q, Up(f, rest)), h) == PathBalanced(Append(q, Up(f.(value := v), rest)), h)
    decreases q
  {
    match q
    case Top =>
    case Up(g, r) =>
      Revalue(r, f, v, rest, h + (if g.color == Black then 1 else 0));
  }

  /** The state of `erase_fix`: the cursor `x` (possibly the sentinel) lacks one BLACK node
      on each of its paths compared with its sibling; apart from that, and a possible RED
      root of `x` under a RED parent, the invariants hold. */
  ghost predicate FixingErase(x: Tree, p: Path) {
    RedOk(Blacken(x)) && Balanced(x) && PathRedOk(p) && PathBalanced(p, BlackHeight(x) + 1) &&
    (p.Up? ==> ColorOf(Plug(x, p)) == Black)
  }

  /**
   * The splice of `erase` (MyDS/set.h:327-356) at the node `z` found by the descent:
   * with at most one child, that child is transplanted into `z`'s place; with two, the
   * successor `y` from `find_min(z->right)` is replaced by its right child and then takes
   * `z`'s place and colour. Returns the node `x` that took the removed node's place, its
   * path, and the removed node's original colour. The in-order sequence loses exactly `z`'s
   * value; after removing a RED node the tree is a red-black tree, after a BLACK one `x` is
   * ready for `erase_fix`.
   */
  method Splice(z: Tree, p: Path) returns (x: Tree, q: Path, removed: Color)
    requires z.Node? && ValidAt(z, p)
    ensures Inorder(Plug(x, q)) == Before(p) + Inorder(z.left) + Inorder(z.right) + After(p)
    ensures removed == Red ==> ValidAt(x, q)
    ensures removed == Black ==> FixingErase(x, q)
  {
    PlugInorder(z, p);
    if z.left.Nil? {
      x, q, removed := z.right, p, z.color;
      PlugInorder(x, q);
      SpliceOneChild(z, p, z.right);
    } else if z.right.Nil? {
      x, q, removed := z.left, p, z.color;
      PlugInorder(x, q);
      SpliceOneChild(z, p, z.left);
    } else {
      var above := Up(RightOf(z.color, z.value, z.left), p);
      ValidDown(z, p);
      var y, path := FindMin(z.right, above);
      removed := y.color;
      x := y.right;
      q := Append(path, Up(RightOf(z.color, y.value, z.left), p));
      SpliceSuccessor(z, p, y, path);
    }
  }

  /** `z` has the sentinel as one child: its other child `c` takes its place. */
  lemma SpliceOneChild(z: Tree, p: Path, c: Tree)
    requires z.Node? && ValidAt(z, p)
    requires (z.left.Nil? && c == z.right) || (z.right.Nil? && c == z.left)
    ensures z.color == Red ==> ValidAt(c, p)
    ensures z.color == Black ==> FixingErase(c, p)
  {
    assert BlackHeight(c) == 0;
    assert RedOk(z.left) && RedOk(z.right);
    BlackenRedOk(c);
    if p.Up? {
      PlugRootColor(c, z, p);
    }
    if z.color == Black {
      assert BlackHeight(z) == 1;
    } else {
      assert ColorOf(c) == Black;
    }
  }

  /** `z` has two children and `y` is the leftmost node of its right subtree, reached by the
      all-left path `path`: `y`'s right child takes `y`'s place and `y` takes `z`'s. */
  lemma SpliceSuccessor(z: Tree, p: Path, y: Tree, path: Path)
    requires z.Node? && z.left.Node? && z.right.Node? && ValidAt(z, p)
    requires y.Node? && y.left.Nil? && Plug(y, path) == z.right && Before(path) == []
    requires Inorder(z.right) == [y.value] + Inorder(y.right) + After(path)
    requires ValidAt(y, Append(path, Up(RightOf(z.color, z.value, z.left), p)))
    ensures var q := Append(path, Up(RightOf(z.color, y.value, z.left), p));
      Inorder(Plug(y.right, q)) == Before(p) + Inorder(z.left) + Inorder(z.right) + After(p) &&
      (y.color == Red ==> ValidAt(y.right, q)) &&
      (y.color == Black ==> FixingErase(y.right, q))
  {
    SuccessorShape(z, p, y, path);
    SuccessorRoot(z, p, y, path);
    SuccessorColors(z, p, y, path);
  }

  /** The values after the successor splice. */
  lemma SuccessorShape(z: Tree, p: Path, y: Tree, path: Path)
    requires z.Node? && y.Node? && Before(path) == []
    requires Inorder(z.right) == [y.value] + Inorder(y.right) + After(path)
    ensures Inorder(Plug(y.right, Append(path, Up(RightOf(z.color, y.value, z.left), p)))) ==
      Before(p) + Inorder(z.left) + Inorder(z.right) + After(p)
  {
    var f := RightOf(z.color, y.value, z.left);
    var x := y.right;
    var t := Attach(Plug(x, path), f);
    PlugAppend(x, path, Up(f, p));
    PlugInorder(x, path);
    PlugInorder(t, p);
    SuccessorValues(Before(p), Inorder(z.left), y.value, Inorder(Plug(x, path)), Inorder(x),
      After(path), After(p), Inorder(z.right));
  }

  /** The sequence arithmetic of the successor splice. */
  lemma SuccessorValues(b: seq<int>, l: seq<int>, v: int, s: seq<int>, xs: seq<int>,
                        ap: seq<int>, a: seq<int>, zr: seq<int>)
    requires s == [] + xs + ap && zr == [v] + xs + ap
    ensures b + (l + [v] + s) + a == b + l + zr + a
  {
    assert l + [v] + s == l + zr;
  }

  /** The root colour after the successor splice. */
  lemma SuccessorRoot(z: Tree, p: Path, y: Tree, path: Path)
    requires z.Node? && y.Node?
    ensures p.Up? ==> ColorOf(Plug(y.right, Append(path, Up(RightOf(z.color, y.value, z.left), p)))) == ColorOf(Plug(z, p))
  {
    var f := RightOf(z.color, y.value, z.left);
    var t := Attach(Plug(y.right, path), f);
    PlugAppend(y.right, path, Up(f, p));
    if p.Up? {
      PlugRootColor(t, z, p);
    }
  }

  /** The colours and black heights after the successor splice. */
  lemma SuccessorColors(z: Tree, p: Path, y: Tree, path: Path)
    requires z.Node? && ValidAt(z, p)
    requires y.Node? && y.left.Nil?
    requires ValidAt(y, Append(path, Up(RightOf(z.color, z.value, z.left), p)))
    requires p.Up? ==> ColorOf(Plug(y.right, Append(path, Up(RightOf(z.color, y.value, z.left), p)))) == ColorOf(Plug(z, p))
    ensures var q := Append(path, Up(RightOf(z.color, y.value, z.left), p));
      (y.color == Red ==> ValidAt(y.right, q)) &&
      (y.color == Black ==> FixingErase(y.right, q))
  {
    var f := RightOf(z.color, z.value, z.left);
    var q := Append(path, Up(f.(value := y.value), p));
    var x := y.right;
    var h := BlackHeight(x);
    assert BlackHeight(y.left) == 0 && h == 0;
    Revalue(path, f, y.value, p, h);
    Revalue(path, f, y.value, p, h + 1);
    assert RedOk(x);
    BlackenRedOk(x);
    if p.Top? {
      PlugAppend(x, path, Up(f.(value := y.value), p));
      assert ColorOf(Plug(x, q)) == z.color;
    }
    if y.color == Red {
      assert ColorOf(x) == Black;
    }
  }

  /* ------------------------------------------------------------------------- erase_fix */

  lemma BlackenRedOk(t: Tree)
    requires RedOk(t)
    ensures RedOk(Blacken(t)) && Balanced(Blacken(t)) == Balanced(t) && Inorder(Blacken(t)) == Inorder(t)
  {
  }

  /** Sibling RED, cursor on the left (MyDS/set.h:124-129): the sibling turns BLACK, the
      parent RED, and the parent is rotated left. The cursor keeps its place under the now
      RED parent and gets a BLACK sibling. */
  lemma EraseSiblingRedLeft(x: Tree, f: Frame, rest: Path)
    requires FixingErase(x, Up(f, rest)) && ColorOf(x) == Black && f.LeftOf?
    requires ColorOf(f.sibling) == Red
    ensures var w := f.sibling;
      var q := Up(LeftOf(Red, f.value, w.left), Up(LeftOf(Black, w.value, w.right), rest));
      FixingErase(x, q) && ColorOf(w.left) == Black &&
      Inorder(Plug(x, q)) == Inorder(Plug(x, Up(f, rest)))
  {
    var w := f.sibling;
    var h := BlackHeight(x);
    assert f.color == Black && BlackHeight(w) == h + 1;
    assert BlackHeight(w.left) == h + 1 && BlackHeight(w.right) == h + 1;
    var r := Node(Black, Node(Red, x, f.value, w.left), w.value, w.right);
    assert r == RotateLeft(Attach(x, f.(color := Red, sibling := w.(color := Black))));
    var q := Up(LeftOf(Red, f.value, w.left), Up(LeftOf(Black, w.value, w.right), rest));
    assert Plug(x, q) == Plug(r, rest);
    Replace(r, Attach(x, f), rest);
  }

  /** Sibling RED, cursor on the right (MyDS/set.h:148-153): the mirror image. */
  lemma EraseSiblingRedRight(x: Tree, f: Frame, rest: Path)
    requires FixingErase(x, Up(f, rest)) && ColorOf(x) == Black && f.RightOf?
    requires ColorOf(f.sibling) == Red
    ensures var w := f.sibling;
      var q := Up(RightOf(Red, f.value, w.right), Up(RightOf(Black, w.value, w.left), rest));
      FixingErase(x, q) && ColorOf(w.right) == Black &&
      Inorder(Plug(x, q)) == Inorder(Plug(x, Up(f, rest)))
  {
    var w := f.sibling;
    var h := BlackHeight(x);
    assert f.color == Black && BlackHeight(w) == h + 1;
    assert BlackHeight(w.left) == h + 1 && BlackHeight(w.right) == h + 1;
    var r := Node(Black, w.left, w.value, Node(Red, w.right, f.value, x));
    assert r == RotateRight(Attach(x, f.(color := Red, sibling := w.(color := Black))));
    var q := Up(RightOf(Red, f.value, w.right), Up(RightOf(Black, w.value, w.left), rest));
    assert Plug(x, q) == Plug(r, rest);
    Replace(r, Attach(x, f), rest);
  }

  /** Sibling BLACK with two BLACK children (MyDS/set.h:130-132, 154-156): the sibling turns
      RED and the cursor moves up to the parent, which now lacks one BLACK node. */
  lemma EraseRecolor(x: Tree, f: Frame, rest: Path)
    requires FixingErase(x, Up(f, rest)) && ColorOf(x) == Black
    requires ColorOf(f.sibling) == Black && f.sibling.Node?
    requires ColorOf(f.sibling.left) == Black && ColorOf(f.sibling.right) == Black
    ensures var x' := Attach(x, f.(sibling := f.sibling.(color := Red)));
      FixingErase(x', rest) && Depth(rest) < Depth(Up(f, rest)) &&
      (f.color == Red ==> ColorOf(x') == Red) &&
      Inorder(Plug(x', rest)) == Inorder(Plug(x, Up(f, rest)))
  {
    var w := f.sibling;
    var h := BlackHeight(x);
    assert BlackHeight(w) == h + 1 && BlackHeight(w.left) == h && BlackHeight(w.right) == h;
    var w' := w.(color := Red);
    assert Balanced(w') && BlackHeight(w') == h && RedOk(w');
    assert RedOk(x);
    var x' := Attach(x, f.(sibling := w'));
    assert Balanced(x') && RedOk(Blacken(x'));
    assert Plug(x, Up(f, rest)) == Plug(Attach(x, f), rest);
    Replace(x', Attach(x, f), rest);
  }

  /** Sibling BLACK, near child RED and far child BLACK, cursor on the left
      (MyDS/set.h:134-139): the near child turns BLACK, the sibling RED, and the sibling is
      rotated right; the new sibling is BLACK with a RED far child. */
  lemma EraseNearRedLeft(x: Tree, f: Frame, rest: Path)
    requires FixingErase(x, Up(f, rest)) && ColorOf(x) == Black && f.LeftOf?
    requires ColorOf(f.sibling) == Black && f.sibling.Node?
    requires ColorOf(f.sibling.left) == Red && ColorOf(f.sibling.right) == Black
    ensures var w := f.sibling;
      var w' := RotateRight(w.(color := Red, left := Blacken(w.left)));
      FixingErase(x, Up(f.(sibling := w'), rest)) && w'.color == Black && ColorOf(w'.right) == Red &&
      Inorder(Plug(x, Up(f.(sibling := w'), rest))) == Inorder(Plug(x, Up(f, rest)))
  {
    var w := f.sibling;
    var h := BlackHeight(x);
    assert BlackHeight(w) == h + 1 && BlackHeight(w.left) == h && BlackHeight(w.right) == h;
    assert RedOk(w) && Balanced(w);
    var n := w.left;
    assert RedOk(n) && Balanced(n);
    assert BlackHeight(n.left) == h && BlackHeight(n.right) == h;
    assert ColorOf(n.left) == Black && ColorOf(n.right) == Black;
    var w' := RotateRight(w.(color := Red, left := Blacken(n)));
    var inner := Node(Red, n.right, w.value, w.right);
    assert Balanced(inner) && BlackHeight(inner) == h && RedOk(inner);
    assert w' == Node(Black, n.left, n.value, inner);
    assert RedOk(w') && Balanced(w') && BlackHeight(w') == h + 1;
    assert Inorder(w') == Inorder(w);
    assert Plug(x, Up(f.(sibling := w'), rest)) == Plug(Attach(x, f.(sibling := w')), rest);
    assert Plug(x, Up(f, rest)) == Plug(Attach(x, f), rest);
    Replace(Attach(x, f.(sibling := w')), Attach(x, f), rest);
  }

  /** The mirror image of `EraseNearRedLeft` (MyDS/set.h:158-163). */
  lemma EraseNearRedRight(x: Tree, f: Frame, rest: Path)
    requires FixingErase(x, Up(f, rest)) && ColorOf(x) == Black && f.RightOf?
    requires ColorOf(f.sibling) == Black && f.sibling.Node?
    requires ColorOf(f.sibling.right) == Red && ColorOf(f.sibling.left) == Black
    ensures var w := f.sibling;
      var w' := RotateLeft(w.(color := Red, right := Blacken(w.right)));
      FixingErase(x, Up(f.(sibling := w'), rest)) && w'.color == Black && ColorOf(w'.left) == Red &&
      Inorder(Plug(x, Up(f.(sibling := w'), rest))) == Inorder(Plug(x, Up(f, rest)))
  {
    var w := f.sibling;
    var h := BlackHeight(x);
    assert BlackHeight(w) == h + 1 && BlackHeight(w.left) == h && BlackHeight(w.right) == h;
    assert RedOk(w) && Balanced(w);
    var n := w.right;
    assert RedOk(n) && Balanced(n);
    assert BlackHeight(n.left) == h && BlackHeight(n.right) == h;
    assert ColorOf(n.left) == Black && ColorOf(n.right) == Black;
    var w' := RotateLeft(w.(color := Red, right := Blacken(n)));
    var inner := Node(Red, w.left, w.value, n.left);
    assert Balanced(inner) && BlackHeight(inner) == h && RedOk(inner);
    assert w' == Node(Black, inner, n.value, n.right);
    assert RedOk(w') && Balanced(w') && BlackHeight(w') == h + 1;
    assert Inorder(w') == Inorder(w);
    assert Plug(x, Up(f.(sibling := w'), rest)) == Plug(Attach(x, f.(sibling := w')), rest);
    assert Plug(x, Up(f, rest)) == Plug(Attach(x, f), rest);
    Replace(Attach(x, f.(sibling := w')), Attach(x, f), rest);
  }

  /** Sibling BLACK with a RED far child, cursor on the left (MyDS/set.h:140-144): the
      sibling takes the parent's colour, parent and far child turn BLACK, and the parent is
      rotated left. The whole tree is then a red-black tree. */
  lemma EraseFarRedLeft(x: Tree, f: Frame, rest: Path)
    requires FixingErase(x, Up(f, rest)) && ColorOf(x) == Black && f.LeftOf?
    requires ColorOf(f.sibling) == Black && f.sibling.Node? && ColorOf(f.sibling.right) == Red
    ensures var w := f.sibling;
      var t := Plug(RotateLeft(Attach(x, f.(color := Black, sibling := w.(color := f.color, right := Blacken(w.right))))), rest);
      RedOk(t) && Balanced(t) && ColorOf(t) == Black &&
      Inorder(t) == Inorder(Plug(x, Up(f, rest)))
  {
    var w := f.sibling;
    var h := BlackHeight(x);
    assert BlackHeight(w) == h + 1 && BlackHeight(w.left) == h && BlackHeight(w.right) == h;
    assert RedOk(w) && Balanced(w) && RedOk(w.right) && Balanced(w.right);
    BlackenRedOk(w.right);
    assert BlackHeight(Blacken(w.right)) == h + 1;
    assert Inorder(Blacken(w.right)) == Inorder(w.right);
    var r := RotateLeft(Attach(x, f.(color := Black, sibling := w.(color := f.color, right := Blacken(w.right)))));
    var inner := Node(Black, x, f.value, w.left);
    assert Balanced(inner) && BlackHeight(inner) == h + 1 && RedOk(inner);
    assert r == Node(f.color, inner, w.value, Blacken(w.right));
    assert RedOk(r) && Balanced(r);
    assert Plug(x, Up(f, rest)) == Plug(Attach(x, f), rest);
    Replace(r, Attach(x, f), rest);
    PlugRedBlack(r, rest);
  }

  /** The mirror image of `EraseFarRedLeft` (MyDS/set.h:164-168). */
  lemma EraseFarRedRight(x: Tree, f: Frame, rest: Path)
    requires FixingErase(x, Up(f, rest)) && ColorOf(x) == Black && f.RightOf?
    requires ColorOf(f.sibling) == Black && f.sibling.Node? && ColorOf(f.sibling.left) == Red
    ensures var w := f.sibling;
      var t := Plug(RotateRight(Attach(x, f.(color := Black, sibling := w.(color := f.color, left := Blacken(w.left))))), rest);
      RedOk(t) && Balanced(t) && ColorOf(t) == Black &&
      Inorder(t) == Inorder(Plug(x, Up(f, rest)))
  {
    var w := f.sibling;
    var h := BlackHeight(x);
    assert BlackHeight(w) == h + 1 && BlackHeight(w.left) == h && BlackHeight(w.right) == h;
    assert RedOk(w) && Balanced(w) && RedOk(w.left) && Balanced(w.left);
    BlackenRedOk(w.left);
    assert BlackHeight(Blacken(w.left)) == h + 1;
    assert Inorder(Blacken(w.left)) == Inorder(w.left);
    var r := RotateRight(Attach(x, f.(color := Black, sibling := w.(color := f.color, left := Blacken(w.left)))));
    var inner := Node(Black, w.right, f.value, x);
    assert Balanced(inner) && BlackHeight(inner) == h + 1 && RedOk(inner);
    assert r == Node(f.color, Blacken(w.left), w.value, inner);
    assert RedOk(r) && Balanced(r);
    assert Plug(x, Up(f, rest)) == Plug(Attach(x, f), rest);
    Replace(r, Attach(x, f), rest);
    PlugRedBlack(r, rest);
  }

  /** A non-empty black height means a real node: the cursor's sibling is never the
      sentinel. */
  lemma SiblingExists(x: Tree, f: Frame, rest: Path)
    requires FixingErase(x, Up(f, rest))
    ensures f.sibling.Node?
  {
    assert BlackHeight(f.sibling) == BlackHeight(x) + 1;
  }

  lemma BlackenBalanced(t: Tree)
    ensures Balanced(Blacken(t)) == Balanced(t) && Inorder(Blacken(t)) == Inorder(t)
  {
  }

  /** Leaving the `erase_fix` loop: the cursor is the root or RED, and making it BLACK
      restores every invariant. */
  lemma EraseFixDone(x: Tree, p: Path)
    requires FixingErase(x, p) && (p.Top? || ColorOf(x) == Red)
    ensures var t := Plug(Blacken(x), p);
      ColorOf(t) == Black && RedOk(t) && Balanced(t) && Inorder(t) == Inorder(Plug(x, p))
  {
    BlackenBalanced(x);
    SameInorder(Blacken(x), x, p);
    if p.Up? {
      PlugRootColor(Blacken(x), x, p);
    }
    PlugRedBlack(Blacken(x), p);
  }

  /**
   * `erase_fix(x)` (MyDS/set.h:120-173): while the cursor is neither the root nor RED, repair
   * the missing BLACK node by the four sibling cases, on the side where the cursor hangs;
   * finally make the cursor BLACK. The result is a red-black tree with the same in-order
   * sequence.
   */
  method EraseFix(x0: Tree, p0: Path) returns (t: Tree)
    requires FixingErase(x0, p0)
    ensures ColorOf(t) == Black && RedOk(t) && Balanced(t)
    ensures Inorder(t) == Inorder(Plug(x0, p0))
  {
    var x, p := x0, p0;
    while p.Up? && ColorOf(x) == Black
      invariant FixingErase(x, p)
      invariant Inorder(Plug(x, p)) == Inorder(Plug(x0, p0))
      decreases EraseMeasure(x, p)
    {
      if p.frame.LeftOf? {
        x, p := EraseFixLeft(x, p.frame, p.rest);
      } else {
        x, p := EraseFixRight(x, p.frame, p.rest);
      }
    }
    EraseFixDone(x, p);
    t := Plug(Blacken(x), p);
  }

  /** What each round of `erase_fix` decreases: the cursor climbs, or turns RED, or leaves
      the loop at the root. */
  function EraseMeasure(x: Tree, p: Path): nat {
    2 * Depth(p) + (if ColorOf(x) == Black then 1 else 0)
  }

  /** One round of `erase_fix` with the cursor on the left (MyDS/set.h:122-145). */
  method EraseFixLeft(x0: Tree, f0: Frame, rest0: Path) returns (x: Tree, p: Path)
    requires FixingErase(x0, Up(f0, rest0)) && ColorOf(x0) == Black && f0.LeftOf?
    ensures FixingErase(x, p) && EraseMeasure(x, p) < EraseMeasure(x0, Up(f0, rest0))
    ensures Inorder(Plug(x, p)) == Inorder(Plug(x0, Up(f0, rest0)))
  {
    var f, rest := f0, rest0;
    x := x0;
    if ColorOf(f.sibling) == Red {
      EraseSiblingRedLeft(x, f, rest);
      var w := f.sibling;
      f, rest := LeftOf(Red, f.value, w.left), Up(LeftOf(Black, w.value, w.right), rest);
    }
    SiblingExists(x, f, rest);
    var w := f.sibling;
    if ColorOf(w.left) == Black && ColorOf(w.right) == Black {
      EraseRecolor(x, f, rest);
      x, p := Attach(x, f.(sibling := w.(color := Red))), rest;
    } else {
      if ColorOf(w.right) == Black {
        EraseNearRedLeft(x, f, rest);
        f := f.(sibling := RotateRight(w.(color := Red, left := Blacken(w.left))));
        w := f.sibling;
      }
      EraseFarRedLeft(x, f, rest);
      x, p := Plug(RotateLeft(Attach(x, f.(color := Black, sibling := w.(color := f.color, right := Blacken(w.right))))), rest), Top;
      BlackenRedOk(x);
    }
  }

  /** One round of `erase_fix` with the cursor on the right (MyDS/set.h:146-169). */
  method EraseFixRight(x0: Tree, f0: Frame, rest0: Path) returns (x: Tree, p: Path)
    requires FixingErase(x0, Up(f0, rest0)) && ColorOf(x0) == Black && f0.RightOf?
    ensures FixingErase(x, p) && EraseMeasure(x, p) < EraseMeasure(x0, Up(f0, rest0))
    ensures Inorder(Plug(x, p)) == Inorder(Plug(x0, Up(f0, rest0)))
  {
    var f, rest := f0, rest0;
    x := x0;
    if ColorOf(f.sibling) == Red {
      EraseSiblingRedRight(x, f, rest);
      var w := f.sibling;
      f, rest := RightOf(Red, f.value, w.right), Up(RightOf(Black, w.value, w.left), rest);
    }
    SiblingExists(x, f, rest);
    var w := f.sibling;
    if ColorOf(w.right) == Black && ColorOf(w.left) == Black {
      EraseRecolor(x, f, rest);
      x, p := Attach(x, f.(sibling := w.(color := Red))), rest;
    } else {
      if ColorOf(w.left) == Black {
        EraseNearRedRight(x, f, rest);
        f := f.(sibling := RotateLeft(w.(color := Red, right := Blacken(w.right))));
        w := f.sibling;
      }
      EraseFarRedRight(x, f, rest);
      x, p := Plug(RotateRight(Attach(x, f.(color := Black, sibling := w.(color := f.color, left := Blacken(w.left))))), rest), Top;
      BlackenRedOk(x);
    }
  }

  /** The splice and, after removing a BLACK node, `erase_fix` (MyDS/set.h:327-360): the
      node `z` leaves the tree, which is a red-black tree again with `z`'s value gone. */
  method EraseNode(z: Tree, p: Path) returns (t: Tree)
    requires z.Node? && ValidAt(z, p)
    ensures ColorOf(t) == Black && RedOk(t) && Balanced(t)
    ensures Inorder(t) == Before(p) + Inorder(z.left) + Inorder(z.right) + After(p)
  {
    var x, q, removed := Splice(z, p);
    if removed == Black {
      t := EraseFix(x, q);
    } else {
      PlugRedBlack(x, q);
      t := Plug(x, q);
    }
  }

  /** The in-order sequence around a node, regrouped. */
  lemma Regroup5(all: seq<int>, before: seq<int>, l: seq<int>, v: int, r: seq<int>, after: seq<int>)
    requires all == before + (l + [v] + r) + after
    ensures all == (before + l) + [v] + (r + after)
    ensures before + l + r + after == (before + l) + (r + after)
  {
  }

  /* ------------------------------------------------------------------ the set's values */

  /** The values stored in a tree. */
  ghost function Values(t: Tree): set<int> {
    set x | x in Inorder(t)
  }

  /** A strictly ascending sequence has no repeated value, so it has as many elements as
      values. */
  lemma {:induction false} AscendingCount(s: seq<int>)
    requires Ascending(s)
    ensures |set x | x in s| == |s|
  {
    if s != [] {
      AscendingCount(s[1..]);
      assert (set x | x in s) == {s[0]} + (set x | x in s[1..]);
      assert s[0] !in s[1..];
    }
  }

  /** Linking a value between the values before and after an empty position keeps the
      sequence ascending and adds exactly that value. */
  lemma InsertValues(a: seq<int>, v: int, b: seq<int>)
    requires Ascending(a + b)
    requires (forall e :: e in a ==> e < v) && (forall e :: e in b ==> v < e)
    ensures Ascending(a + [v] + b)
    ensures (set x | x in a + [v] + b) == (set x | x in a + b) + {v}
  {
    AscendingParts(a, b, []);
    assert a + b + [] == a + b;
    AscendingJoin(a, [v]);
    AscendingJoin(a + [v], b);
  }

  /** Dropping one value from an ascending sequence keeps it ascending and removes exactly
      that value. */
  lemma EraseValues(a: seq<int>, v: int, b: seq<int>)
    requires Ascending(a + [v] + b)
    ensures Ascending(a + b)
    ensures (set x | x in a + b) == (set x | x in a + [v] + b) - {v}
  {
    AscendingParts(a, [v], b);
    assert v in [v];
    forall x, y | x in a && y in b ensures x < y {
      assert x < v && v < y;
    }
    AscendingJoin(a, b);
    assert v !in a && v !in b;
  }

  /**
   * `Set<T>` (MyDS/set.h:11-399): the tree `root` and the count `_size`. `Valid()` is the
   * invariant every public operation keeps: the red-black properties, the strictly
   * ascending in-order sequence, and `size` equal to the number of stored values.
   */
  class RbSet {
    var root: Tree
    var size: nat

    ghost predicate Valid()
      reads this
    {
      IsRedBlack(root) && size == |Inorder(root)|
    }

    /** The stored values. */
    ghost function Elements(): set<int>
      reads this
    {
      Values(root)
    }

    /** `Set()` (MyDS/set.h:224-227): root is the sentinel and the count is zero. */
    constructor ()
      ensures Valid() && Elements() == {} && size == 0 && root == Nil
    {
      root := Nil;
      size := 0;
    }

    /** `Set(init)` (MyDS/set.h:229-233): inserts the listed values in order, so duplicates
        collapse. */
    constructor FromList(init: seq<int>)
      ensures Valid() && Elements() == set x | x in init
    {
      root := Nil;
      size := 0;
      new;
      var i := 0;
      while i < |init|
        invariant 0 <= i <= |init|
        invariant Valid() && Elements() == set x | x in init[..i]
      {
        Insert(init[i]);
        assert init[..i + 1] == init[..i] + [init[i]];
        i := i + 1;
      }
      assert init[..i] == init;
    }

    /** `Set(Set const &other)` (MyDS/set.h:235-238): a node-by-node copy with the same
        values, colours and shape, and the same count. */
    constructor Copy(other: RbSet)
      requires other.Valid()
      ensures Valid() && root == other.root && size == other.size && Elements() == other.Elements()
    {
      root := CopyTree(other.root);
      size := other.size;
    }

    /**
     * `insert(value)` (MyDS/set.h:278-310): descend; on a duplicate return with nothing
     * changed; otherwise hang a RED leaf where the descent ended, run `insert_fix` and count
     * it.
     */
    method Insert(v: int)
      requires Valid()
      modifies this
      ensures Valid()
      ensures Elements() == old(Elements()) + {v}
      ensures v in old(Elements()) ==> root == old(root) && size == old(size)
      ensures v !in old(Elements()) ==> size == old(size) + 1
    {
      var x, p := Descend(root, v);
      if x.Node? {
        return;
      }
      PlugInorder(Nil, p);
      assert Inorder(root) == Before(p) + After(p) by {
        assert Before(p) + Inorder(Nil) == Before(p);
      }
      InsertValues(Before(p), v, After(p));
      root := InsertLeaf(p, v);
      size := size + 1;
    }

    /**
     * `erase(value)` (MyDS/set.h:312-361): descend; if the value is absent nothing changes;
     * otherwise splice its node out and run `erase_fix` when the removed colour was BLACK,
     * then decrement the count.
     */
    method Erase(v: int)
      requires Valid()
      modifies this
      ensures Valid()
      ensures Elements() == old(Elements()) - {v}
      ensures v !in old(Elements()) ==> root == old(root) && size == old(size)
      ensures v in old(Elements()) ==> size == old(size) - 1
    {
      var z, p := Descend(root, v);
      if z.Nil? {
        return;
      }
      PlugInorder(z, p);
      ghost var a, b := Before(p) + Inorder(z.left), Inorder(z.right) + After(p);
      Regroup5(Inorder(root), Before(p), Inorder(z.left), v, Inorder(z.right), After(p));
      EraseValues(a, v, b);
      root := EraseNode(z, p);
      size := size - 1;
    }

    /** `contains(value)` (MyDS/set.h:363-375): the binary-search walk from the root. */
    method Contains(v: int) returns (found: bool)
      requires Valid()
      ensures found <==> v in Elements()
    {
      var current := root;
      while current.Node?
        invariant Ascending(Inorder(current))
        invariant v in Inorder(root) <==> v in Inorder(current)
        decreases current
      {
        AscendingParts(Inorder(current.left), [current.value], Inorder(current.right));
        assert current.value in [current.value];
        if v < current.value {
          current := current.left;
        } else if v > current.value {
          current := current.right;
        } else {
          return true;
        }
      }
      return false;
    }

    /** `size()` (MyDS/set.h:381-383): the number of stored values. */
    method Size() returns (n: nat)
      requires Valid()
      ensures n == |Elements()|
    {
      AscendingCount(Inorder(root));
      n := size;
    }

    /** `empty()` (MyDS/set.h:377-379). */
    method Empty() returns (e: bool)
      requires Valid()
      ensures e <==> Elements() == {}
    {
      e := size == 0;
      if !e {
        assert Inorder(root)[0] in Elements();
      }
    }

    /** `clear()` (MyDS/set.h:385-389): root back to the sentinel and the count to zero. */
    method Clear()
      requires Valid()
      modifies this
      ensures Valid() && root == Nil && size == 0 && Elements() == {}
    {
      root := Nil;
      size := 0;
    }

    /** The ordered enumeration that `operator<<` prints through `inorder`
        (MyDS/set.h:212-221): every stored value once, ascending. */
    function Enumerate(): (s: seq<int>)
      reads this
      requires Valid()
      ensures Ascending(s) && |s| == size
      ensures forall x :: x in s <==> x in Elements()
    {
      Inorder(root)
    }
  }

  /** `copy(node, parent, other_nil)` (MyDS/set.h:201-210): rebuilds every node with the same
      value and colour; the source's sentinel becomes the copy's own. */
  function CopyTree(t: Tree): (r: Tree)
    ensures r == t
  {
    match t
    case Nil => Nil
    case Node(c, l, v, rt) => Node(c, CopyTree(l), v, CopyTree(rt))
  }
}
