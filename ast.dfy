/**
 * `SpelNodeImpl`, the common supertype of the nodes of a parsed Spring
 * Expression Language expression: its packed source position, its children
 * and parent link, and the sibling look-ups grammar-sensitive nodes use.
 */
module Ast {
  import opened Wrappers
  import opened Words
  import opened JavaValues
  import Position

  /** What Java throws when `getChild` is given an index outside the array. */
  datatype IndexError = ArrayIndexOutOfBoundsException(index: int)

  /** The objects a constructor call hands over as operands. */
  function Operands(operands: array?<SpelNodeImpl>): seq<SpelNodeImpl>
    reads operands
  {
    if operands == null then [] else operands[..]
  }

  class SpelNodeImpl {
    /** start in the top 16 bits, end in the bottom 16 bits */
    var pos: int32
    /** Aliases the operand array the node was built from; not final, so subclasses may replace it. */
    var children: array<SpelNodeImpl>
    var parent: SpelNodeImpl?
    /** The concrete node class, what `getClass()` returns. */
    const kind: JavaClass

    /** Every child names this node as its parent. */
    ghost predicate ParentOfAll()
      reads this, children, children[..]
    {
      forall i :: 0 <= i < children.Length ==> children[i].parent == this
    }

    /**
     * Stores the position and, when there are operands, takes the operand
     * array itself as `children` and points every operand back at the new node.
     * Only the operands' `parent` fields are written: their own children and
     * positions stay as they were, so a tree built bottom-up keeps its wiring.
     */
    constructor (kind: JavaClass, pos: int32, operands: array?<SpelNodeImpl>)
      requires pos != 0
      modifies Operands(operands)`parent
      ensures this.kind == kind && this.pos == pos && parent == null
      ensures operands != null && operands.Length > 0 ==> children == operands
      ensures operands == null || operands.Length == 0 ==> fresh(children)
      ensures GetChildCount() == |Operands(operands)|
      ensures children[..] == Operands(operands)
      ensures ParentOfAll()
    {
      this.kind := kind;
      this.pos := pos;
      parent := null;
      if operands != null && operands.Length > 0 {
        children := operands;
      } else {
        children := new SpelNodeImpl[0];
      }
      new;
      if operands != null && operands.Length > 0 {
        var i := 0;
        while i < operands.Length
          invariant 0 <= i <= operands.Length
          invariant children == operands && parent == null && this.pos == pos
          invariant this !in operands[..]
          invariant operands[..] == old(operands[..])
          invariant forall j :: 0 <= j < i ==> operands[j].parent == this
        {
          operands[i].parent := this;
          i := i + 1;
        }
      }
    }

    function GetChildCount(): (n: nat)
      reads this
      ensures n == children.Length
    {
      children.Length
    }

    /** `getChild(index)`: Java's array access, which throws outside 0..count-1. */
    function GetChild(index: int): (r: Result<SpelNodeImpl, IndexError>)
      reads this, children
      ensures r.Success? <==> 0 <= index < GetChildCount()
      ensures r.Success? ==> r.value == children[index]
      ensures r.Failure? ==> r.error == ArrayIndexOutOfBoundsException(index)
    {
      if 0 <= index < children.Length then Success(children[index])
      else Failure(ArrayIndexOutOfBoundsException(index))
    }

    function StartPosition(): (start: int32)
      reads this
      ensures start == Position.StartOf(pos)
      ensures -0x8000 <= start < 0x8000
    {
      pos / 0x1_0000
    }

    function EndPosition(): (end: int32)
      reads this
      ensures end == Position.EndOf(pos)
      ensures 0 <= end < 0x1_0000
    {
      pos % 0x1_0000
    }

    /** By default a node cannot be assigned to. */
    function IsWritable<S>(state: S): (writable: bool)
      ensures !writable
    {
      false
    }

    /**
     * By default assignment fails with SETVALUE_NOT_SUPPORTED, carrying the
     * node's start position and its class; nothing changes.
     */
    function SetValue<S>(state: S, newValue: Value): (r: Outcome<EvaluationException>)
      reads this
      ensures r.Fail?
      ensures r.error.SpelEvaluationException? && r.error.message == SetValueNotSupported
      ensures r.error.position == StartPosition() as int && r.error.inserts == [kind]
    {
      Fail(SpelEvaluationException(StartPosition() as int, SetValueNotSupported, [kind]))
    }

    /**
     * `getPreviousChild()`: the sibling just before this node among its
     * parent's children, found by identity.
     */
    method GetPreviousChild() returns (result: SpelNodeImpl?)
      ensures parent == null ==> result == null
      ensures parent != null ==> result == PreviousOf(parent.children[..], this)
    {
      result := null;
      if parent != null {
        var peers := parent.children;
        var i := 0;
        while i < peers.Length
          invariant 0 <= i <= peers.Length
          invariant this !in peers[..i]
          invariant result == if i == 0 then null else peers[i - 1]
        {
          if peers[i] == this {
            break;
          }
          result := peers[i];
          i := i + 1;
        }
        FirstIndexFound(peers[..], this, i);
      }
    }

    /**
     * `nextChildIs(clazzes)`: whether the sibling just after this node has
     * exactly one of the given classes.
     */
    method NextChildIs(clazzes: seq<JavaClass>) returns (b: bool)
      ensures b == (parent != null && NextIs(parent.children[..], this, clazzes))
    {
      if parent != null {
        var peers := parent.children;
        var max := peers.Length;
        var i := 0;
        while i < max
          invariant 0 <= i <= max
          invariant this !in peers[..i]
        {
          if peers[i] == this {
            FirstIndexFound(peers[..], this, i);
            if i + 1 >= max {
              return false;
            } else {
              var clazz := peers[i + 1].kind;
              var j := 0;
              while j < |clazzes|
                invariant 0 <= j <= |clazzes|
                invariant clazz !in clazzes[..j]
              {
                if clazz == clazzes[j] {
                  return true;
                }
                j := j + 1;
              }
              assert clazzes[..j] == clazzes;
              return false;
            }
          }
          i := i + 1;
        }
        FirstIndexFound(peers[..], this, i);
      }
      return false;
    }
  }

  /** The index of the first element identical to `x`, or `|s|` when there is none. */
  function FirstIndex<T(==)>(s: seq<T>, x: T): (i: nat)
    ensures i <= |s|
    ensures i < |s| ==> s[i] == x
    ensures x !in s[..i]
  {
    if s == [] then 0
    else if s[0] == x then 0
    else
      var i := 1 + FirstIndex(s[1..], x);
      assert s[..i] == [s[0]] + s[1..][..i - 1];
      i
  }

  /** A scan that stops at `i`, having passed only other elements, has found the first index. */
  lemma {:induction false} FirstIndexFound<T>(s: seq<T>, x: T, i: nat)
    requires i <= |s| && x !in s[..i]
    requires i < |s| ==> s[i] == x
    ensures FirstIndex(s, x) == i
  {
    if i > 0 {
      assert s[0] == s[..i][0];
      assert s[1..][..i - 1] == s[..i][1..];
      FirstIndexFound(s[1..], x, i - 1);
    }
  }

  /**
   * The element before the first occurrence of `x` among `peers`; null when
   * `x` comes first or `peers` is empty; the last element when `x` is absent.
   */
  function PreviousOf(peers: seq<SpelNodeImpl>, x: SpelNodeImpl): SpelNodeImpl?
  {
    var i := FirstIndex(peers, x);
    if i == 0 then null else peers[i - 1]
  }

  /** The element after the first occurrence of `x` exists and has one of `classes`. */
  predicate NextIs(peers: seq<SpelNodeImpl>, x: SpelNodeImpl, classes: seq<JavaClass>)
  {
    var i := FirstIndex(peers, x);
    i + 1 < |peers| && peers[i + 1].kind in classes
  }

  /** No node occurs twice. */
  predicate Distinct(s: seq<SpelNodeImpl>)
  {
    forall i, j :: 0 <= i < j < |s| ==> s[i] != s[j]
  }

  /** At its first occurrence, a node's predecessor is the element before it, or null at the front. */
  lemma PreviousOfAt(peers: seq<SpelNodeImpl>, i: nat)
    requires i < |peers| && peers[i] !in peers[..i]
    ensures PreviousOf(peers, peers[i]) == if i == 0 then null else peers[i - 1]
  {
    FirstIndexFound(peers, peers[i], i);
  }

  /** A node that is not among the peers gets the last peer as its predecessor. */
  lemma PreviousOfAbsent(peers: seq<SpelNodeImpl>, x: SpelNodeImpl)
    requires x !in peers
    ensures PreviousOf(peers, x) == if peers == [] then null else peers[|peers| - 1]
  {
    assert peers[..|peers|] == peers;
    FirstIndexFound(peers, x, |peers|);
  }

  /** At its first occurrence, a node is followed by a match exactly when a next element exists with a listed class. */
  lemma NextIsAt(peers: seq<SpelNodeImpl>, i: nat, classes: seq<JavaClass>)
    requires i < |peers| && peers[i] !in peers[..i]
    ensures NextIs(peers, peers[i], classes) <==> i + 1 < |peers| && peers[i + 1].kind in classes
  {
    FirstIndexFound(peers, peers[i], i);
  }

  /** A node that is not among the peers has no next sibling. */
  lemma NextIsAbsent(peers: seq<SpelNodeImpl>, x: SpelNodeImpl, classes: seq<JavaClass>)
    requires x !in peers
    ensures !NextIs(peers, x, classes)
  {
    assert peers[..|peers|] == peers;
    FirstIndexFound(peers, x, |peers|);
  }

  /** In a sequence without repeats every element is at its first occurrence. */
  lemma DistinctFirst(s: seq<SpelNodeImpl>, i: nat)
    requires Distinct(s) && i < |s|
    ensures s[i] !in s[..i]
  {
    forall j | 0 <= j < i
      ensures s[..i][j] != s[i]
    {
      assert s[..i][j] == s[j];
    }
  }

  /**
   * For a node whose children all point back to it and occur once each, the
   * i-th child's parent is the node, its previous sibling is child i-1 (none
   * for the first), and `nextChildIs` looks exactly at child i+1.
   */
  lemma SiblingsOfWiredChild(p: SpelNodeImpl, i: nat, classes: seq<JavaClass>)
    requires p.ParentOfAll() && Distinct(p.children[..]) && i < p.children.Length
    ensures p.children[i].parent == p
    ensures PreviousOf(p.children[..], p.children[i]) == if i == 0 then null else p.children[i - 1]
    ensures NextIs(p.children[..], p.children[i], classes) <==>
              i + 1 < p.children.Length && p.children[i + 1].kind in classes
  {
    var peers := p.children[..];
    DistinctFirst(peers, i);
    PreviousOfAt(peers, i);
    NextIsAt(peers, i, classes);
  }

  /** After construction every child reached through `getChild` points back at the new node. */
  lemma ChildPointsBack(p: SpelNodeImpl, index: int)
    requires p.ParentOfAll() && 0 <= index < p.GetChildCount()
    ensures p.GetChild(index).Success? && p.GetChild(index).value.parent == p
  {
  }

  /**
   * A two-operand node built bottom-up, as the parser builds `a op b`: the
   * left operand has no previous sibling and is followed by a leaf, the right
   * operand's previous sibling is the left one and nothing follows it.
   */
  method BinaryNodeSiblings(leaf: JavaClass, operator: JavaClass)
    returns (left: SpelNodeImpl, leftPrevious: SpelNodeImpl?, rightPrevious: SpelNodeImpl?,
             leftBeforeLeaf: bool, rightBeforeLeaf: bool)
    ensures leftPrevious == null && rightPrevious == left
    ensures leftBeforeLeaf && !rightBeforeLeaf
  {
    Position.TokenSpanNonZero(0, 1);
    Position.TokenSpanNonZero(4, 5);
    Position.TokenSpanNonZero(0, 5);
    left := new SpelNodeImpl(leaf, Position.Pack(0, 1), null);
    var right := new SpelNodeImpl(leaf, Position.Pack(4, 5), null);
    var operands := new SpelNodeImpl[2][left, right];
    var node := new SpelNodeImpl(operator, Position.Pack(0, 5), operands);
    assert Distinct(node.children[..]);
    SiblingsOfWiredChild(node, 0, [leaf]);
    SiblingsOfWiredChild(node, 1, [leaf]);
    leftPrevious := left.GetPreviousChild();
    rightPrevious := right.GetPreviousChild();
    leftBeforeLeaf := left.NextChildIs([leaf]);
    rightBeforeLeaf := right.NextChildIs([leaf]);
  }

  /** A fresh node over the two distinct operands `x` and `y`, which now point back at it. */
  method BuildPair(kind: JavaClass, pos: int32, x: SpelNodeImpl, y: SpelNodeImpl) returns (node: SpelNodeImpl)
    requires pos != 0 && x != y
    modifies x`parent, y`parent
    ensures fresh(node) && node.kind == kind && node.pos == pos && node.parent == null
    ensures node.children[..] == [x, y] && x.parent == node && y.parent == node
    ensures node.ParentOfAll() && Distinct(node.children[..])
  {
    var operands := new SpelNodeImpl[2][x, y];
    node := new SpelNodeImpl(kind, pos, operands);
  }

  /**
   * Three levels built bottom-up, as the parser builds `a + b * c`: building
   * the root re-points only the inner node `b * c`, which keeps its own
   * children wired, so `c` still finds `b` before it and `b * c` finds `a`.
   */
  method NestedBuildKeepsWiring(leaf: JavaClass, times: JavaClass, plus: JavaClass)
    returns (inner: SpelNodeImpl, a: SpelNodeImpl, b: SpelNodeImpl,
             innerPrevious: SpelNodeImpl?, cPrevious: SpelNodeImpl?, bBeforeLeaf: bool)
    ensures inner.ParentOfAll() && inner.GetChildCount() == 2
    ensures innerPrevious == a && cPrevious == b && bBeforeLeaf
  {
    Position.TokenSpanNonZero(0, 1);
    Position.TokenSpanNonZero(4, 5);
    Position.TokenSpanNonZero(8, 9);
    Position.TokenSpanNonZero(4, 9);
    Position.TokenSpanNonZero(0, 9);
    a := new SpelNodeImpl(leaf, Position.Pack(0, 1), null);
    b := new SpelNodeImpl(leaf, Position.Pack(4, 5), null);
    var c := new SpelNodeImpl(leaf, Position.Pack(8, 9), null);
    inner := BuildPair(times, Position.Pack(4, 9), b, c);
    SiblingsOfWiredChild(inner, 0, [leaf]);
    SiblingsOfWiredChild(inner, 1, [leaf]);
    var root := BuildPair(plus, Position.Pack(0, 9), a, inner);
    SiblingsOfWiredChild(root, 1, [leaf]);
    innerPrevious := inner.GetPreviousChild();
    cPrevious := c.GetPreviousChild();
    bBeforeLeaf := b.NextChildIs([leaf]);
  }
}
