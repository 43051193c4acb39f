/**
 * Node<T>: a binary-tree node holding a value and two nullable child
 * references.
 *
 * C++ chooses between the lvalue and the rvalue overloads of the
 * constructors and setters by the argument's value category.  Here that
 * choice is an `Arg`:
 * - an lvalue argument is aliased: the child reference is the argument itself;
 * - an rvalue argument is copied into a freshly allocated node that shares
 *   its children.  Inside those overloads the named rvalue reference is an
 *   lvalue, so `new Node(arg)` runs the copy constructor and leaves the
 *   argument as it was.
 *
 * T() is passed explicitly as `blank` where the move operations reset their
 * source, since a type parameter has no value-initialisation here.
 * NodeExcept is a value carrying its what() message.
 */
module Nodes {

  /** The error codes NodeExcept understands. */
  const NULLNODE: nat := 0xEE
  const NOTANODE: nat := 0xFF
  const NONODE: nat := 0xDD

  const UnknownMessage: string := "Unknown Error Occurred!"

  /** The exception thrown by the getters: its what() message. */
  datatype NodeExcept = NodeExcept(message: string)

  /**
   * NodeExcept(code): each known code has its own message, naming the code
   * before a colon; any other code gives the unknown-error message.
   */
  function FromCode(code: nat): (e: NodeExcept)
    ensures code == NONODE ==> e.message == "NONODE: the node you're invoking doesn't exist!"
    ensures code == NOTANODE ==> e.message == "NOTANODE: This is NOT a node!"
    ensures code == NULLNODE ==> e.message == "NULLNODE: the node you're invoking is EMPTY!"
    ensures e.message == UnknownMessage <==> code !in {NONODE, NOTANODE, NULLNODE}
  {
    if code == NONODE then NodeExcept("NONODE: the node you're invoking doesn't exist!")
    else if code == NOTANODE then NodeExcept("NOTANODE: This is NOT a node!")
    else if code == NULLNODE then NodeExcept("NULLNODE: the node you're invoking is EMPTY!")
    else NodeExcept(UnknownMessage)
  }

  /** The outcome of an operation that may throw a NodeExcept. */
  datatype Result<+R> = Ok(value: R) | Thrown(error: NodeExcept)

  /** How a node reaches a constructor or setter: by lvalue or by rvalue reference. */
  datatype Arg<T(==,0)> = LValue(node: Node<T>) | RValue(node: Node<T>)

  /** The three fields of a node, as one value. */
  type Fields<T(==,0)> = (T, Node?<T>, Node?<T>)

  /**
   * `child` is what a constructor or setter installs for `arg`: the argument
   * itself for an lvalue, and for an rvalue a node whose fields are `was`,
   * the argument's fields at the moment of copying.
   */
  ghost predicate Received<T(0)>(child: Node?<T>, arg: Arg<T>, was: Fields<T>)
    reads child
  {
    child != null && if arg.LValue? then child == arg.node else child.Snapshot() == was
  }

  /**
   * The child a constructor or setter installs: an lvalue argument itself,
   * or a fresh shallow copy of an rvalue argument.
   */
  method Attach<T(==,0)>(arg: Arg<T>) returns (child: Node<T>)
    ensures Received(child, arg, arg.node.Snapshot())
    ensures arg.RValue? ==> fresh(child)
  {
    if arg.LValue? {
      child := arg.node;
    } else {
      child := new Node.Copy(arg.node);
    }
  }

  class Node<T(==,0)> {
    var data: T
    var left: Node?<T>
    var right: Node?<T>

    /** The three fields, as one value. */
    function Snapshot(): (f: Fields<T>)
      reads this
      ensures f.0 == data && f.1 == left && f.2 == right
    {
      (data, left, right)
    }

    /** Node(): no children; the data is left default-initialised, here unspecified. */
    constructor ()
      ensures left == null && right == null
    {
      left := null;
      right := null;
    }

    /** Node(data): the given data and no children. */
    constructor WithData(data: T)
      ensures this.data == data && left == null && right == null
    {
      this.data := data;
      left := null;
      right := null;
    }

    /** Node(left, right), all four overloads: the children installed, the data unspecified. */
    constructor WithChildren(left: Arg<T>, right: Arg<T>)
      ensures Received(this.left, left, left.node.Snapshot()) && (left.RValue? ==> fresh(this.left))
      ensures Received(this.right, right, right.node.Snapshot()) && (right.RValue? ==> fresh(this.right))
    {
      var l := Attach(left);
      var r := Attach(right);
      this.left := l;
      this.right := r;
    }

    /** Node(data, left, right), all four overloads: the data and the children installed. */
    constructor WithAll(data: T, left: Arg<T>, right: Arg<T>)
      ensures this.data == data
      ensures Received(this.left, left, left.node.Snapshot()) && (left.RValue? ==> fresh(this.left))
      ensures Received(this.right, right, right.node.Snapshot()) && (right.RValue? ==> fresh(this.right))
    {
      var l := Attach(left);
      var r := Attach(right);
      this.data := data;
      this.left := l;
      this.right := r;
    }

    /** Node(const Node&): a shallow copy sharing the other node's children. */
    constructor Copy(other: Node<T>)
      ensures Snapshot() == other.Snapshot()
    {
      data := other.data;
      left := other.left;
      right := other.right;
    }

    /**
     * Node(Node&&): takes the other node's data and children, then resets
     * the other node to T() with no children.
     */
    constructor Move(other: Node<T>, blank: T)
      modifies other
      ensures Snapshot() == old(other.Snapshot())
      ensures other.Snapshot() == (blank, null, null)
    {
      data := other.data;
      left := other.left;
      right := other.right;
      new;
      other.data := blank;
      other.left := null;
      other.right := null;
    }

    /** operator=(const Node&): a shallow copy; assigning a node to itself changes nothing. */
    method CopyAssign(other: Node<T>)
      modifies this
      ensures Snapshot() == old(other.Snapshot())
      ensures other.Snapshot() == old(other.Snapshot())
    {
      data := other.data;
      left := other.left;
      right := other.right;
    }

    /**
     * operator=(Node&&): takes the other node's fields, then resets the other
     * node.  Moving a node into itself therefore leaves it reset.
     */
    method MoveAssign(other: Node<T>, blank: T)
      modifies this, other
      ensures other.Snapshot() == (blank, null, null)
      ensures other != this ==> Snapshot() == old(other.Snapshot())
    {
      data := other.data;
      left := other.left;
      right := other.right;
      other.data := blank;
      other.left := null;
      other.right := null;
    }

    /** operator=(T): only the data changes. */
    method AssignData(data: T)
      modifies this
      ensures Snapshot() == (data, old(left), old(right))
    {
      this.data := data;
    }

    /** setData: only the data changes. */
    method SetData(data: T)
      modifies this
      ensures Snapshot() == (data, old(left), old(right))
    {
      this.data := data;
    }

    /** setLeft, both overloads: only the left child changes. */
    method SetLeft(arg: Arg<T>)
      modifies this
      ensures Received(left, arg, old(arg.node.Snapshot())) && (arg.RValue? ==> fresh(left))
      ensures data == old(data) && right == old(right)
    {
      var child := Attach(arg);
      left := child;
    }

    /** setRight, both overloads: only the right child changes. */
    method SetRight(arg: Arg<T>)
      modifies this
      ensures Received(right, arg, old(arg.node.Snapshot())) && (arg.RValue? ==> fresh(right))
      ensures data == old(data) && left == old(left)
    {
      var child := Attach(arg);
      right := child;
    }

    /**
     * setNodes, all four overloads: left first, then right.  A right
     * argument that is this very node is copied after its left child has
     * been replaced.
     */
    method SetNodes(l: Arg<T>, r: Arg<T>)
      modifies this
      ensures data == old(data)
      ensures Received(left, l, old(l.node.Snapshot())) && (l.RValue? ==> fresh(left))
      ensures Received(right, r, if r.node == this then (old(data), left, old(right)) else old(r.node.Snapshot()))
      ensures r.RValue? ==> fresh(right)
    {
      var lc := Attach(l);
      left := lc;
      var rc := Attach(r);
      right := rc;
    }

    /** getData. */
    function GetData(): (r: T)
      reads this
      ensures r == Snapshot().0
    {
      data
    }

    /** getLeft: throws NONODE exactly when there is no left child, else gives that child. */
    function GetLeft(): (r: Result<Node<T>>)
      reads this
      ensures r.Thrown? <==> left == null
      ensures r.Thrown? ==> r.error == FromCode(NONODE)
      ensures r.Ok? ==> r.value == left
    {
      if left == null then Thrown(FromCode(NONODE)) else Ok(left)
    }

    /** getRight: throws NONODE exactly when there is no right child, else gives that child. */
    function GetRight(): (r: Result<Node<T>>)
      reads this
      ensures r.Thrown? <==> right == null
      ensures r.Thrown? ==> r.error == FromCode(NONODE)
      ensures r.Ok? ==> r.value == right
    {
      if right == null then Thrown(FromCode(NONODE)) else Ok(right)
    }

    /** isItMe: the very same object, which then also compares equal. */
    function IsItMe(other: Node<T>): (r: bool)
      reads this, other
      ensures r <==> other == this
      ensures r ==> Equal(this, other)
    {
      this == other
    }
  }

  /** operator==: compares the data only, never the children. */
  function Equal<T(==,0)>(first: Node<T>, second: Node<T>): (r: bool)
    reads first, second
    ensures r <==> first.Snapshot().0 == second.Snapshot().0
  {
    first.data == second.data
  }

  /** operator!=: exactly the negation of ==. */
  function NotEqual<T(==,0)>(first: Node<T>, second: Node<T>): (r: bool)
    reads first, second
    ensures r <==> !Equal(first, second)
  {
    first.data != second.data
  }

  /**
   * The operator demonstration: nodes 100, 100 and 200 compare by data, and
   * a default node takes 500 by data assignment, then 200 and node 3's
   * children by copy assignment.
   */
  method OperatorsDemo() returns (eq12: bool, eq13: bool, ne12: bool, ne13: bool, after500: int, afterCopy: int)
    ensures eq12 && !eq13 && !ne12 && ne13
    ensures after500 == 500 && afterCopy == 200
  {
    var n1 := new Node<int>.WithData(100);
    var n2 := new Node<int>.WithData(100);
    var n3 := new Node<int>.WithData(200);
    eq12, eq13 := Equal(n1, n2), Equal(n1, n3);
    ne12, ne13 := NotEqual(n1, n2), NotEqual(n1, n3);
    var n4 := new Node<int>();
    n4.AssignData(500);
    after500 := n4.GetData();
    n4.CopyAssign(n3);
    afterCopy := n4.GetData();
  }

  /** A node built from data alone has no children: both getters throw NONODE. */
  method ExceptionDemo() returns (l: Result<Node<int>>, r: Result<Node<int>>)
    ensures l.Thrown? && l.error.message == "NONODE: the node you're invoking doesn't exist!"
    ensures r.Thrown? && r.error.message == "NONODE: the node you're invoking doesn't exist!"
  {
    var node := new Node<int>.WithData(100);
    l := node.GetLeft();
    r := node.GetRight();
  }

  /**
   * A tree of depth two built bottom-up from lvalues:
   * 25 over 15 and 35, over the leaves 10, 20, 30 and 40.
   */
  method TreeDemo() returns (root: Node<int>)
    ensures root.GetData() == 25
    ensures root.GetLeft().Ok? && root.GetLeft().value.GetData() == 15
    ensures root.GetRight().Ok? && root.GetRight().value.GetData() == 35
    ensures root.left.GetLeft().Ok? && root.left.GetLeft().value.GetData() == 10
    ensures root.left.GetRight().Ok? && root.left.GetRight().value.GetData() == 20
    ensures root.right.GetLeft().Ok? && root.right.GetLeft().value.GetData() == 30
    ensures root.right.GetRight().Ok? && root.right.GetRight().value.GetData() == 40
  {
    var leaf1 := new Node<int>.WithData(10);
    var leaf2 := new Node<int>.WithData(20);
    var leaf3 := new Node<int>.WithData(30);
    var leaf4 := new Node<int>.WithData(40);
    var internal1 := new Node<int>.WithAll(15, LValue(leaf1), LValue(leaf2));
    var internal2 := new Node<int>.WithAll(35, LValue(leaf3), LValue(leaf4));
    root := new Node<int>.WithAll(25, LValue(internal1), LValue(internal2));
  }

  /**
   * Copy and move: a copy shares the original's children and can change its
   * own data independently; moving the copy out resets it to "" with no
   * children.
   */
  method CopyMoveDemo() returns (original: Node<string>, copy: Node<string>, moved: Node<string>)
    ensures original.data == "Original" && original.left != null && original.right != null
    ensures copy != original && copy.Snapshot() == ("", null, null)
    ensures moved.data == "Modified Copy"
    ensures moved.left == original.left && moved.right == original.right
  {
    original := new Node<string>.WithData("Original");
    var leftChild := new Node<string>.WithData("Left Child");
    var rightChild := new Node<string>.WithData("Right Child");
    original.SetLeft(RValue(leftChild));
    original.SetRight(RValue(rightChild));
    copy := new Node<string>.Copy(original);
    copy.SetData("Modified Copy");
    moved := new Node<string>.Move(copy, "");
  }
}
