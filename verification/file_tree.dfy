/**
  The editor's workspace: a read-only forest of files and folders, and the
  identity lookup the tab strip and the editor use (`findFile` in CodeSection). The lookup is
  a depth-first, pre-order walk that visits siblings in array order and
  descends into a folder's children before moving on to the next sibling.
 */
module FileTree {
  import opened Wrappers

  type Id = string

  /** One entry of the workspace. A file may carry text; a folder carries an
      ordered list of children, possibly empty. */
  datatype Node =
    | File(id: Id, name: string, path: string, content: Option<string>)
    | Folder(id: Id, name: string, path: string, children: seq<Node>)

  /** The pre-order listing of a forest: each node, then its subtree, then the following siblings. */
  function Flatten(nodes: seq<Node>): (r: seq<Node>)
    ensures |nodes| > 0 ==> |r| > 0 && r[0] == nodes[0]
    decreases nodes
  {
    if |nodes| == 0 then []
    else
      var tail := Flatten(nodes[1..]);
      var below := if nodes[0].Folder? then Flatten(nodes[0].children) else [];
      [nodes[0]] + below + tail
  }

  /** The listing of a concatenation is the concatenation of the listings. */
  lemma {:induction false} FlattenAppend(a: seq<Node>, b: seq<Node>)
    ensures Flatten(a + b) == Flatten(a) + Flatten(b)
    decreases a
  {
    if |a| == 0 {
      assert a + b == b;
    } else {
      var below := if a[0].Folder? then Flatten(a[0].children) else [];
      assert (a + b)[0] == a[0];
      assert (a + b)[1..] == a[1..] + b;
      calc {
        Flatten(a + b);
        [a[0]] + below + Flatten(a[1..] + b);
        { FlattenAppend(a[1..], b); }
        [a[0]] + below + (Flatten(a[1..]) + Flatten(b));
        Flatten(a) + Flatten(b);
      }
    }
  }

  /** A forest of files lists as itself. */
  lemma {:induction false} FlattenFiles(nodes: seq<Node>)
    requires forall k | 0 <= k < |nodes| :: nodes[k].File?
    ensures Flatten(nodes) == nodes
    decreases nodes
  {
    if |nodes| > 0 {
      FlattenFiles(nodes[1..]);
    }
  }

  /** The ids of a listing, in order. */
  function IdsOf(xs: seq<Node>): (r: seq<Id>)
    ensures |r| == |xs| && forall k | 0 <= k < |xs| :: r[k] == xs[k].id
  {
    seq(|xs|, k requires 0 <= k < |xs| => xs[k].id)
  }

  /** The ids of a concatenation are the ids of the parts. */
  lemma IdsOfAppend(a: seq<Node>, b: seq<Node>)
    ensures IdsOf(a + b) == IdsOf(a) + IdsOf(b)
  {
    assert forall k | 0 <= k < |a + b| :: IdsOf(a + b)[k] == (IdsOf(a) + IdsOf(b))[k];
  }

  /** Every id that occurs anywhere in the forest, nested folders included. */
  function AllIds(nodes: seq<Node>): set<Id> {
    set n | n in Flatten(nodes) :: n.id
  }

  /** `findFile`: the lookup as the source writes it, a loop over siblings with
      a recursive descent into children that returns on the first hit. */
  function Find(nodes: seq<Node>, target: Id): (r: Option<Node>)
    ensures r.Some? ==> r.value.id == target && r.value in Flatten(nodes)
    decreases nodes
  {
    if |nodes| == 0 then None
    else if nodes[0].id == target then Some(nodes[0])
    else
      var inner := if nodes[0].Folder? then Find(nodes[0].children, target) else None;
      if inner.Some? then inner else Find(nodes[1..], target)
  }

  /** The reference lookup: the first entry of a listing that carries the id. */
  function FirstWithId(xs: seq<Node>, target: Id): (r: Option<Node>)
    ensures r.None? <==> forall k | 0 <= k < |xs| :: xs[k].id != target
    ensures r.Some? ==> exists k | 0 <= k < |xs| :: xs[k] == r.value && r.value.id == target
                          && forall j | 0 <= j < k :: xs[j].id != target
  {
    if |xs| == 0 then None
    else if xs[0].id == target then Some(xs[0])
    else
      var rest := FirstWithId(xs[1..], target);
      assert forall k | 1 <= k < |xs| :: xs[k] == xs[1..][k - 1];
      rest
  }

  /** The first match in a concatenation is the first match in the left part, if any. */
  lemma {:induction false} FirstWithIdAppend(a: seq<Node>, b: seq<Node>, target: Id)
    ensures FirstWithId(a + b, target)
         == (if FirstWithId(a, target).Some? then FirstWithId(a, target) else FirstWithId(b, target))
  {
    if |a| > 0 {
      assert (a + b)[1..] == a[1..] + b;
      FirstWithIdAppend(a[1..], b, target);
    } else {
      assert a + b == b;
    }
  }

  /** The lookup returns the first node carrying the id in pre-order. */
  lemma {:induction false} FindIsFirstInPreorder(nodes: seq<Node>, target: Id)
    ensures Find(nodes, target) == FirstWithId(Flatten(nodes), target)
    decreases nodes
  {
    if |nodes| > 0 {
      var head := nodes[0];
      var below := if head.Folder? then Flatten(head.children) else [];
      var tail := Flatten(nodes[1..]);
      assert Flatten(nodes) == [head] + (below + tail);
      if head.id != target {
        assert ([head] + (below + tail))[1..] == below + tail;
        FirstWithIdAppend(below, tail, target);
        if head.Folder? {
          FindIsFirstInPreorder(head.children, target);
        }
        FindIsFirstInPreorder(nodes[1..], target);
      }
    }
  }

  /** The lookup misses exactly when the id occurs nowhere in the forest. */
  lemma FindNoneIffAbsent(nodes: seq<Node>, target: Id)
    ensures Find(nodes, target).None? <==> target !in AllIds(nodes)
  {
    FindIsFirstInPreorder(nodes, target);
    var xs := Flatten(nodes);
    if target in AllIds(nodes) {
      var n :| n in xs && n.id == target;
      var k :| 0 <= k < |xs| && xs[k] == n;
    }
  }

  /** Ids are unique across the whole forest, not just among siblings. */
  predicate UniqueIds(nodes: seq<Node>) {
    var xs := Flatten(nodes);
    forall i, j | 0 <= i < j < |xs| :: xs[i].id != xs[j].id
  }

  /** When no other node shares its id, the lookup returns exactly that node. */
  lemma FindUnique(nodes: seq<Node>, n: Node)
    requires n in Flatten(nodes)
    requires forall m | m in Flatten(nodes) && m.id == n.id :: m == n
    ensures Find(nodes, n.id) == Some(n)
  {
    FindIsFirstInPreorder(nodes, n.id);
    var xs := Flatten(nodes);
    var i :| 0 <= i < |xs| && xs[i] == n;
    var r := FirstWithId(xs, n.id);
    var k :| 0 <= k < |xs| && xs[k] == r.value && r.value.id == n.id;
    assert xs[k] in xs;
  }

  /** With globally unique ids every node of the forest is what the lookup returns for its id. */
  lemma FindAllUnique(nodes: seq<Node>)
    requires UniqueIds(nodes)
    ensures forall n | n in Flatten(nodes) :: Find(nodes, n.id) == Some(n)
  {
    var xs := Flatten(nodes);
    forall n | n in xs
      ensures Find(nodes, n.id) == Some(n)
    {
      forall m | m in xs && m.id == n.id
        ensures m == n
      {
        var i :| 0 <= i < |xs| && xs[i] == n;
        var j :| 0 <= j < |xs| && xs[j] == m;
        assert i == j;
      }
      FindUnique(nodes, n);
    }
  }

  /** A missing id, the `null` active file included, resolves to nothing. */
  function Resolve(nodes: seq<Node>, target: Option<Id>): (r: Option<Node>)
    ensures target.None? ==> r.None?
    ensures r.Some? ==> target.Some? && r.value.id == target.value && r.value in Flatten(nodes)
    ensures target.Some? ==> r == FirstWithId(Flatten(nodes), target.value)
    ensures target.Some? ==> (r.None? <==> target.value !in AllIds(nodes))
  {
    match target
    case None => None
    case Some(t) =>
      FindIsFirstInPreorder(nodes, t);
      FindNoneIffAbsent(nodes, t);
      Find(nodes, t)
  }

  /** Every file in the forest has text loaded, so no file shows the default gutter. */
  predicate ContentLoaded(nodes: seq<Node>) {
    forall n | n in Flatten(nodes) :: n.File? ==> n.content.Some?
  }

  /** Each node's path is its parent's path, a slash and its own name; top-level nodes hang off "". */
  predicate PathsWellFormed(nodes: seq<Node>, parent: string)
    decreases nodes, 1
  {
    forall k | 0 <= k < |nodes| :: PathWellFormed(nodes[k], parent)
  }

  predicate PathWellFormed(n: Node, parent: string)
    decreases n, 0
  {
    && n.path == parent + "/" + n.name
    && (n.Folder? ==> PathsWellFormed(n.children, n.path))
  }
}
