/**
 Flattened device trees (section 5.4 of the Devicetree Specification v0.3) and the search that
 circle/lib/devicetreeblob.cpp makes in them, stated on trees.
*/
module DeviceTreeSpec {
  import opened Basics

  type Bytes = seq<uint8>

  const FDT_BEGIN_NODE: uint32 := 1
  const FDT_END_NODE: uint32 := 2
  const FDT_PROP: uint32 := 3
  const SLASH: uint8 := 47

  datatype Property = Property(nameOff: uint32, data: Bytes)
  datatype Tree = Node(name: Bytes, props: seq<Property>, children: Forest)
  datatype Forest = Nil | Cons(first: Tree, rest: Forest)

  ghost predicate WellFormed(t: Tree) {
    && (forall k :: 0 <= k < |t.name| ==> t.name[k] != 0)
    && (forall k :: 0 <= k < |t.props| ==> |t.props[k].data| < UINT32_RANGE)
    && WellFormedForest(t.children)
  }

  ghost predicate WellFormedForest(f: Forest) {
    f.Cons? ==> WellFormed(f.first) && WellFormedForest(f.rest)
  }

  // ---------------------------------------------------------------- encoding

  function Word(v: uint32): (b: Bytes)
    ensures |b| == 4
  {
    [v / 0x100_0000, v / 0x1_0000 % 0x100, v / 0x100 % 0x100, v % 0x100]
  }

  function ReadWord(b: Bytes, off: nat): uint32
    requires off + 4 <= |b|
  {
    var b3: int, b2: int, b1: int, b0: int := b[off], b[off + 1], b[off + 2], b[off + 3];
    b3 * 0x100_0000 + b2 * 0x1_0000 + b1 * 0x100 + b0
  }

  /** Words are big endian: the most significant byte comes first. */
  lemma WordIsBigEndian(v: uint32)
    ensures var b3: int, b2: int, b1: int, b0: int := Word(v)[0], Word(v)[1], Word(v)[2], Word(v)[3];
      v == ((b3 * 0x100 + b2) * 0x100 + b1) * 0x100 + b0
  {
    assert v / 0x1_0000 == v / 0x100_0000 * 0x100 + v / 0x1_0000 % 0x100;
    assert v / 0x100 == v / 0x1_0000 * 0x100 + v / 0x100 % 0x100;
  }

  lemma WordRoundTrip(b: Bytes, off: nat, v: uint32)
    requires Holds(b, off, Word(v))
    ensures ReadWord(b, off) == v
  {
    assert b[off..off + 4][0] == b[off] && b[off..off + 4][1] == b[off + 1]
        && b[off..off + 4][2] == b[off + 2] && b[off..off + 4][3] == b[off + 3];
    WordIsBigEndian(v);
    hide Word;
  }

  function Align(n: nat): (r: nat)
    ensures n <= r < n + 4 && r % 4 == 0
  {
    (n + 3) / 4 * 4
  }

  /** Bytes followed by zeros up to the next multiple of four */
  function Padded(b: Bytes): (r: Bytes)
    ensures |r| == Align(|b|) && r[..|b|] == b && forall k :: |b| <= k < |r| ==> r[k] == 0
  {
    b + seq(Align(|b|) - |b|, _ => 0)
  }

  function EncodeName(name: Bytes): Bytes {
    Padded(name + [0])
  }

  function EncodeProperty(p: Property): Bytes
    requires |p.data| < UINT32_RANGE
  {
    Word(FDT_PROP) + (Word(|p.data|) + (Word(p.nameOff) + Padded(p.data)))
  }

  function EncodeProps(props: seq<Property>): Bytes
    requires forall k :: 0 <= k < |props| ==> |props[k].data| < UINT32_RANGE
  {
    if props == [] then [] else EncodeProperty(props[0]) + EncodeProps(props[1..])
  }

  function Encode(t: Tree): Bytes
    requires WellFormed(t)
  {
    Word(FDT_BEGIN_NODE)
      + (EncodeName(t.name) + (EncodeProps(t.props) + (EncodeForest(t.children) + Word(FDT_END_NODE))))
  }

  function EncodeForest(f: Forest): Bytes
    requires WellFormedForest(f)
  {
    match f
    case Nil => []
    case Cons(t, rest) => Encode(t) + EncodeForest(rest)
  }

  /** The bytes lie in the blob at an offset. */
  predicate Holds(blob: Bytes, off: nat, b: Bytes) {
    off + |b| <= |blob| && blob[off..off + |b|] == b
  }

  lemma HoldsBoth(blob: Bytes, off: nat, a: Bytes, b: Bytes)
    requires Holds(blob, off, a + b)
    ensures Holds(blob, off, a) && Holds(blob, off + |a|, b)
  {
    assert blob[off..off + |a|] == (a + b)[..|a|];
    assert blob[off + |a|..off + |a| + |b|] == (a + b)[|a|..];
  }

  /** Offset of the first child of a node that lies at an offset */
  function ChildrenAt(t: Tree, off: nat): nat
    requires WellFormed(t)
  {
    off + 4 + |EncodeName(t.name)| + |EncodeProps(t.props)|
  }

  // ---------------------------------------------------------------- search

  /** Found gives the offset of a node. A Miss lets the search go on behind the node, an Abort
      ends all of it. */
  datatype Outcome = Found(off: nat) | Miss | Abort

  /** Components of a path. What follows a trailing slash is an empty component. */
  function Split(path: Bytes): (r: seq<Bytes>)
    ensures |r| >= 1
    ensures r[0] == path[..HeadLength(path)]
    decreases |path|
  {
    var n := HeadLength(path);
    if n == |path| then [path] else [path[..n]] + Split(path[n + 1..])
  }

  /** Length of the first component */
  function HeadLength(path: Bytes): (n: nat)
    ensures n <= |path| && (n < |path| ==> path[n] == SLASH)
    ensures forall k :: 0 <= k < n ==> path[k] != SLASH
  {
    if path == [] || path[0] == SLASH then 0 else 1 + HeadLength(path[1..])
  }

  /** The components with a slash between each two */
  function Join(components: seq<Bytes>): Bytes
    requires components != []
  {
    if |components| == 1 then components[0] else components[0] + [SLASH] + Join(components[1..])
  }

  /** The components are the pieces of the path between its slashes, and the only such ones. */
  lemma {:induction false} SplitIsInverse(path: Bytes)
    ensures Join(Split(path)) == path
    ensures forall c, k | c in Split(path) && 0 <= k < |c| :: c[k] != 47
    decreases |path|
  {
    hide HeadLength;
    var n := HeadLength(path);
    if n < |path| {
      SplitIsInverse(path[n + 1..]);
      var tail := Split(path[n + 1..]);
      assert ([path[..n]] + tail)[1..] == tail;
      assert path == path[..n] + [SLASH] + path[n + 1..];
      forall c | c in Split(path)
        ensures c == path[..n] || c in tail
      {}
    }
  }

  lemma HeadOfJoin(c: Bytes, rest: Bytes)
    requires forall k :: 0 <= k < |c| ==> c[k] != SLASH
    ensures HeadLength(c + [SLASH] + rest) == |c| && HeadLength(c) == |c|
  {
    var p := c + [SLASH] + rest;
    assert p[|c|] == SLASH;
    assert forall k :: 0 <= k < |c| ==> p[k] == c[k];
  }

  lemma {:induction false} JoinIsInverse(components: seq<Bytes>)
    requires components != [] && forall c, k | c in components && 0 <= k < |c| :: c[k] != SLASH
    ensures Split(Join(components)) == components
  {
    var c := components[0];
    assert c in components;
    if |components| == 1 {
      HeadOfJoin(c, []);
    } else {
      var rest := Join(components[1..]);
      HeadOfJoin(c, rest);
      hide HeadLength;
      var p := c + [SLASH] + rest;
      assert p[..|c|] == c && p[|c| + 1..] == rest;
      forall d | d in components[1..]
        ensures d in components
      {}
      JoinIsInverse(components[1..]);
    }
  }

  /** The search: a node whose name is the first component is taken, and the rest of the path is
      looked for from the same node on. Else all descendants are searched in order. */
  function Search(path: seq<Bytes>, t: Tree, off: nat): Outcome
    requires path != [] && WellFormed(t)
    decreases |path|, t
  {
    if path[0] == [] then (if |path| == 1 then Found(off) else Abort)
    else if path[0] == t.name then
      if |path| == 1 then Found(off)
      else
        var r := Search(path[1..], t, off);
        if r.Found? then r else Abort
    else SearchForest(path, t.children, ChildrenAt(t, off))
  }

  function SearchForest(path: seq<Bytes>, f: Forest, off: nat): Outcome
    requires path != [] && WellFormedForest(f)
    decreases |path|, f
  {
    match f
    case Nil => Miss
    case Cons(t, rest) =>
      var r := Search(path, t, off);
      if r.Miss? then SearchForest(path, rest, off + |Encode(t)|) else r
  }

  // ---------------------------------------------------------------- what the search finds

  /** Declarative reading of a path: a descending chain of nodes, whose names are the components
      in order, ends at the offset. The next node of a chain may be the same node. */
  ghost predicate Leads(path: seq<Bytes>, t: Tree, off: nat, target: nat)
    requires path != [] && WellFormed(t)
    decreases |path|, t
  {
    if path == [[]] then target == off
    else
      || (path[0] == t.name && if |path| == 1 then target == off else Leads(path[1..], t, off, target))
      || LeadsForest(path, t.children, ChildrenAt(t, off), target)
  }

  ghost predicate LeadsForest(path: seq<Bytes>, f: Forest, off: nat, target: nat)
    requires path != [] && WellFormedForest(f)
    decreases |path|, f
  {
    f.Cons? && (Leads(path, f.first, off, target) || LeadsForest(path, f.rest, off + |Encode(f.first)|, target))
  }

  /** Every node found ends a chain whose names are the components of the path. */
  lemma {:induction false} FoundIsChain(path: seq<Bytes>, t: Tree, off: nat)
    requires path != [] && WellFormed(t) && Search(path, t, off).Found?
    ensures Leads(path, t, off, Search(path, t, off).off)
    decreases |path|, t
  {
    if path[0] != [] {
      if path[0] == t.name {
        if |path| > 1 {
          FoundIsChain(path[1..], t, off);
        }
      } else {
        FoundInForest(path, t.children, ChildrenAt(t, off));
      }
    }
  }

  lemma {:induction false} FoundInForest(path: seq<Bytes>, f: Forest, off: nat)
    requires path != [] && WellFormedForest(f) && SearchForest(path, f, off).Found?
    ensures LeadsForest(path, f, off, SearchForest(path, f, off).off)
    decreases |path|, f
  {
    if Search(path, f.first, off).Miss? {
      FoundInForest(path, f.rest, off + |Encode(f.first)|);
    } else {
      FoundIsChain(path, f.first, off);
    }
  }

  // ---------------------------------------------------------------- distinct names

  function Names(t: Tree): multiset<Bytes> {
    multiset{t.name} + ForestNames(t.children)
  }

  function ForestNames(f: Forest): multiset<Bytes> {
    match f
    case Nil => multiset{}
    case Cons(t, rest) => Names(t) + ForestNames(rest)
  }

  ghost predicate Distinct(names: multiset<Bytes>) {
    forall n :: names[n] <= 1
  }

  /** Meaning of a path in the Devicetree Specification: each component names a child of the node
      before. The result is the offset of the node. */
  function Resolve(path: seq<Bytes>, t: Tree, off: nat): Option<nat>
    requires WellFormed(t)
    decreases |path|, t
  {
    if path == [] then Some(off) else ResolveForest(path, t.children, ChildrenAt(t, off))
  }

  function ResolveForest(path: seq<Bytes>, f: Forest, off: nat): Option<nat>
    requires path != [] && WellFormedForest(f)
    decreases |path|, f
  {
    match f
    case Nil => None
    case Cons(t, rest) =>
      if t.name == path[0] then Resolve(path[1..], t, off)
      else ResolveForest(path, rest, off + |Encode(t)|)
  }

  /** A component that names no node of a subtree is missed there. */
  lemma {:induction false} AbsentMissed(path: seq<Bytes>, t: Tree, off: nat)
    requires path != [] && path[0] != [] && WellFormed(t) && path[0] !in Names(t)
    ensures Search(path, t, off) == Miss
    decreases t
  {
    AbsentMissedForest(path, t.children, ChildrenAt(t, off));
  }

  lemma {:induction false} AbsentMissedForest(path: seq<Bytes>, f: Forest, off: nat)
    requires path != [] && path[0] != [] && WellFormedForest(f) && path[0] !in ForestNames(f)
    ensures SearchForest(path, f, off) == Miss
    decreases f
  {
    match f
    case Nil =>
    case Cons(t, rest) =>
      AbsentMissed(path, t, off);
      AbsentMissedForest(path, rest, off + |Encode(t)|);
  }

  lemma {:induction false} ChainIsPresent(path: seq<Bytes>, t: Tree, off: nat, target: nat)
    requires path != [] && path[0] != [] && WellFormed(t) && Leads(path, t, off, target)
    ensures path[0] in Names(t)
    decreases t
  {
    if path[0] != t.name {
      ChainInForest(path, t.children, ChildrenAt(t, off), target);
    }
  }

  lemma {:induction false} ChainInForest(path: seq<Bytes>, f: Forest, off: nat, target: nat)
    requires path != [] && path[0] != [] && WellFormedForest(f) && LeadsForest(path, f, off, target)
    ensures path[0] in ForestNames(f)
    decreases f
  {
    if Leads(path, f.first, off, target) {
      ChainIsPresent(path, f.first, off, target);
    } else {
      ChainInForest(path, f.rest, off + |Encode(f.first)|, target);
    }
  }

  /** If all names are distinct, the search finds every chain. */
  lemma {:induction false} ChainIsFound(path: seq<Bytes>, t: Tree, off: nat, target: nat)
    requires path != [] && WellFormed(t) && Distinct(Names(t)) && Leads(path, t, off, target)
    requires forall k :: 0 <= k < |path| ==> path[k] != []
    ensures Search(path, t, off) == Found(target)
    decreases |path|, t
  {
    DistinctParts(multiset{t.name}, ForestNames(t.children));
    if LeadsForest(path, t.children, ChildrenAt(t, off), target) {
      ChainInForest(path, t.children, ChildrenAt(t, off), target);
      ChainFoundInForest(path, t.children, ChildrenAt(t, off), target);
    } else if |path| > 1 {
      ChainIsFound(path[1..], t, off, target);
    }
  }

  lemma {:induction false} ChainFoundInForest(path: seq<Bytes>, f: Forest, off: nat, target: nat)
    requires path != [] && WellFormedForest(f) && Distinct(ForestNames(f)) && LeadsForest(path, f, off, target)
    requires forall k :: 0 <= k < |path| ==> path[k] != []
    ensures SearchForest(path, f, off) == Found(target)
    decreases |path|, f
  {
    var t, rest := f.first, f.rest;
    DistinctParts(Names(t), ForestNames(rest));
    if Leads(path, t, off, target) {
      ChainIsFound(path, t, off, target);
    } else {
      ChainInForest(path, rest, off + |Encode(t)|, target);
      AbsentMissed(path, t, off);
      ChainFoundInForest(path, rest, off + |Encode(t)|, target);
    }
  }

  /** With distinct names the search finds a node exactly if a chain of the path ends there. */
  lemma FoundIffChain(path: seq<Bytes>, t: Tree, off: nat, target: nat)
    requires path != [] && WellFormed(t) && Distinct(Names(t))
    requires forall k :: 0 <= k < |path| ==> path[k] != []
    ensures Search(path, t, off) == Found(target) <==> Leads(path, t, off, target)
  {
    if Leads(path, t, off, target) {
      ChainIsFound(path, t, off, target);
    }
    if Search(path, t, off) == Found(target) {
      FoundIsChain(path, t, off);
    }
  }

  /** A path that exists in the sense of the specification is a chain. */
  lemma {:induction false} ResolvedIsChain(path: seq<Bytes>, f: Forest, off: nat)
    requires path != [] && WellFormedForest(f) && ResolveForest(path, f, off).Some?
    requires forall k :: 0 <= k < |path| ==> path[k] != []
    ensures LeadsForest(path, f, off, ResolveForest(path, f, off).value)
    decreases |path|, f
  {
    if f.first.name != path[0] {
      ResolvedIsChain(path, f.rest, off + |Encode(f.first)|);
    } else if |path| > 1 {
      ResolvedIsChain(path[1..], f.first.children, ChildrenAt(f.first, off));
    }
  }

  /** If all names are distinct, an existing path returns exactly its node. */
  lemma ExistingPathFound(path: seq<Bytes>, t: Tree, off: nat)
    requires path != [] && WellFormed(t) && Distinct(Names(t))
    requires forall k :: 0 <= k < |path| ==> path[k] != []
    requires Resolve(path, t, off).Some?
    ensures Search(path, t, off) == Found(Resolve(path, t, off).value)
  {
    ResolvedIsChain(path, t.children, ChildrenAt(t, off));
    ChainIsFound(path, t, off, Resolve(path, t, off).value);
  }

  lemma DistinctParts(a: multiset<Bytes>, b: multiset<Bytes>)
    requires Distinct(a + b)
    ensures Distinct(a) && Distinct(b)
    ensures forall n :: n in a ==> n !in b
  {
    forall n: Bytes
      ensures a[n] + b[n] <= 1
    {
      assert (a + b)[n] <= 1;
    }
  }

  // ---------------------------------------------------------------- empty components

  /** The empty path behind the leading slash finds the root. */
  lemma RootFound(t: Tree, off: nat)
    requires WellFormed(t)
    ensures Search(Split([]), t, off) == Found(off)
  {}

  /** A trailing slash changes nothing. */
  lemma {:induction false} TrailingSlash(path: seq<Bytes>, t: Tree, off: nat)
    requires path != [] && WellFormed(t) && forall k :: 0 <= k < |path| ==> path[k] != []
    ensures Search(path + [[]], t, off) == Search(path, t, off)
    decreases |path|, t
  {
    if path[0] == t.name {
      assert (path + [[]])[1..] == path[1..] + [[]];
      if |path| > 1 {
        TrailingSlash(path[1..], t, off);
      } else {
        assert path[1..] + [[]] == [[]];
      }
    } else {
      TrailingSlashForest(path, t.children, ChildrenAt(t, off));
    }
  }

  lemma {:induction false} TrailingSlashForest(path: seq<Bytes>, f: Forest, off: nat)
    requires path != [] && WellFormedForest(f) && forall k :: 0 <= k < |path| ==> path[k] != []
    ensures SearchForest(path + [[]], f, off) == SearchForest(path, f, off)
    decreases |path|, f
  {
    match f
    case Nil =>
    case Cons(t, rest) =>
      TrailingSlash(path, t, off);
      TrailingSlashForest(path, rest, off + |Encode(t)|);
  }

  /** A path with two slashes in a row finds nothing. */
  lemma {:induction false} DoubleSlashFindsNothing(path: seq<Bytes>, t: Tree, off: nat, k: nat)
    requires WellFormed(t) && k < |path| - 1 && path[k] == []
    ensures !Search(path, t, off).Found?
    decreases |path|, t
  {
    if path[0] != [] {
      if path[0] == t.name {
        DoubleSlashFindsNothing(path[1..], t, off, k - 1);
      } else {
        DoubleSlashInForest(path, t.children, ChildrenAt(t, off), k);
      }
    }
  }

  lemma {:induction false} DoubleSlashInForest(path: seq<Bytes>, f: Forest, off: nat, k: nat)
    requires WellFormedForest(f) && k < |path| - 1 && path[k] == []
    ensures !SearchForest(path, f, off).Found?
    decreases |path|, f
  {
    match f
    case Nil =>
    case Cons(t, rest) =>
      DoubleSlashFindsNothing(path, t, off, k);
      DoubleSlashInForest(path, rest, off + |Encode(t)|, k);
  }

  // ---------------------------------------------------------------- the first node with a name

  /** The nodes of a tree with their offsets, each one in front of its descendants */
  ghost function Preorder(t: Tree, off: nat): (nodes: seq<(Tree, nat)>)
    requires WellFormed(t)
    ensures nodes != [] && nodes[0] == (t, off)
    ensures forall i :: 0 <= i < |nodes| ==> WellFormed(nodes[i].0)
  {
    [(t, off)] + PreorderForest(t.children, ChildrenAt(t, off))
  }

  ghost function PreorderForest(f: Forest, off: nat): (nodes: seq<(Tree, nat)>)
    requires WellFormedForest(f)
    ensures forall i :: 0 <= i < |nodes| ==> WellFormed(nodes[i].0)
  {
    match f
    case Nil => []
    case Cons(t, rest) => Preorder(t, off) + PreorderForest(rest, off + |Encode(t)|)
  }

  /** Node i is the first one with the name. */
  ghost predicate IsFirst(nodes: seq<(Tree, nat)>, name: Bytes, i: int) {
    0 <= i < |nodes| && nodes[i].0.name == name && forall j :: 0 <= j < i ==> nodes[j].0.name != name
  }

  ghost predicate NoneNamed(nodes: seq<(Tree, nat)>, name: Bytes) {
    forall j :: 0 <= j < |nodes| ==> nodes[j].0.name != name
  }

  /** What is found from a node on that has the name of the first component */
  ghost function FromNode(path: seq<Bytes>, node: (Tree, nat)): Outcome
    requires path != [] && WellFormed(node.0)
  {
    if |path| == 1 then Found(node.1)
    else
      var r := Search(path[1..], node.0, node.1);
      if r.Found? then r else Abort
  }

  /** The search goes on from the first node in preorder that has the name of the first component, and
      never comes back to look for another one. Without such a node it misses. */
  ghost predicate Commits(path: seq<Bytes>, nodes: seq<(Tree, nat)>, r: Outcome)
    requires path != [] && forall i :: 0 <= i < |nodes| ==> WellFormed(nodes[i].0)
  {
    && (NoneNamed(nodes, path[0]) ==> r == Miss)
    && (forall i :: IsFirst(nodes, path[0], i) ==> r == FromNode(path, nodes[i]))
  }

  lemma CommitsHead(path: seq<Bytes>, node: (Tree, nat), rest: seq<(Tree, nat)>, r: Outcome)
    requires path != [] && WellFormed(node.0) && forall i :: 0 <= i < |rest| ==> WellFormed(rest[i].0)
    requires if node.0.name == path[0] then r == FromNode(path, node) else Commits(path, rest, r)
    ensures Commits(path, [node] + rest, r)
  {
    hide FromNode, IsFirst, NoneNamed;
    var nodes := [node] + rest;
    FirstOfAppended([node], rest, path[0]);
    FirstOfOne(node, path[0]);
    FirstInRange(rest, path[0]);
    assert nodes[0] == node && forall j :: 0 <= j < |rest| ==> rest[j] == nodes[j + 1];
  }

  lemma FirstOfOne(node: (Tree, nat), name: Bytes)
    ensures NoneNamed([node], name) <==> node.0.name != name
    ensures forall i :: IsFirst([node], name, i) <==> node.0.name == name && i == 0
  {
    assert [node][0] == node;
  }

  /** Where the first node with a name is in two lists one behind the other */
  lemma FirstOfAppended(a: seq<(Tree, nat)>, b: seq<(Tree, nat)>, name: Bytes)
    ensures NoneNamed(a + b, name) <==> NoneNamed(a, name) && NoneNamed(b, name)
    ensures forall i :: IsFirst(a + b, name, i) <==>
      IsFirst(a, name, i) || (NoneNamed(a, name) && IsFirst(b, name, i - |a|))
  {
    var c := a + b;
    assert forall j :: 0 <= j < |a| ==> a[j] == c[j];
    assert forall j :: 0 <= j < |b| ==> b[j] == c[j + |a|];
    assert forall j :: |a| <= j < |c| ==> c[j] == b[j - |a|];
    forall i
      ensures IsFirst(c, name, i) <==> IsFirst(a, name, i) || (NoneNamed(a, name) && IsFirst(b, name, i - |a|))
    {}
  }

  lemma CommitsBoth(path: seq<Bytes>, a: seq<(Tree, nat)>, b: seq<(Tree, nat)>, ra: Outcome, rb: Outcome)
    requires path != [] && forall i :: 0 <= i < |a| ==> WellFormed(a[i].0)
    requires forall i :: 0 <= i < |b| ==> WellFormed(b[i].0)
    requires Commits(path, a, ra) && Commits(path, b, rb)
    ensures Commits(path, a + b, if ra.Miss? then rb else ra)
  {
    hide FromNode, IsFirst, NoneNamed;
    FirstOfAppended(a, b, path[0]);
    FirstOrNone(a, path[0]);
    FirstInRange(a, path[0]);
    FirstInRange(b, path[0]);
    assert forall j :: 0 <= j < |a| ==> a[j] == (a + b)[j];
    assert forall j :: 0 <= j < |b| ==> b[j] == (a + b)[j + |a|];
    if !NoneNamed(a, path[0]) {
      var k :| IsFirst(a, path[0], k);
      FromNodeHits(path, a[k]);
    }
  }

  lemma FirstInRange(nodes: seq<(Tree, nat)>, name: Bytes)
    ensures forall i :: IsFirst(nodes, name, i) ==> 0 <= i < |nodes| && !NoneNamed(nodes, name)
  {}

  lemma FromNodeHits(path: seq<Bytes>, node: (Tree, nat))
    requires path != [] && WellFormed(node.0)
    ensures !FromNode(path, node).Miss?
  {}

  lemma {:induction false} FirstOrNone(nodes: seq<(Tree, nat)>, name: Bytes)
    ensures NoneNamed(nodes, name) || exists k :: IsFirst(nodes, name, k)
  {
    if nodes != [] {
      var n := |nodes| - 1;
      FirstOrNone(nodes[..n], name);
      if NoneNamed(nodes[..n], name) {
        assert forall j :: 0 <= j < n ==> nodes[..n][j] == nodes[j];
        if nodes[n].0.name == name {
          assert IsFirst(nodes, name, n);
        }
      } else {
        var k :| IsFirst(nodes[..n], name, k);
        assert forall j :: 0 <= j <= k ==> nodes[..n][j] == nodes[j];
        assert IsFirst(nodes, name, k);
      }
    }
  }

  /** For all trees and all paths without empty components */
  lemma {:induction false} SearchCommits(path: seq<Bytes>, t: Tree, off: nat)
    requires path != [] && path[0] != [] && WellFormed(t)
    ensures Commits(path, Preorder(t, off), Search(path, t, off))
    decreases t
  {
    hide Commits;
    if path[0] != t.name {
      SearchCommitsInForest(path, t.children, ChildrenAt(t, off));
    }
    CommitsHead(path, (t, off), PreorderForest(t.children, ChildrenAt(t, off)), Search(path, t, off));
  }

  lemma {:induction false} SearchCommitsInForest(path: seq<Bytes>, f: Forest, off: nat)
    requires path != [] && path[0] != [] && WellFormedForest(f)
    ensures Commits(path, PreorderForest(f, off), SearchForest(path, f, off))
    decreases f
  {
    hide Commits, Search, SearchForest, Preorder, PreorderForest, Encode, FromNode, IsFirst, NoneNamed;
    match f
    case Nil =>
      NothingCommits(path, off);
    case Cons(t, rest) =>
      SearchCommits(path, t, off);
      SearchCommitsInForest(path, rest, off + |Encode(t)|);
      BothCommit(path, f, off);
  }

  lemma NothingCommits(path: seq<Bytes>, off: nat)
    requires path != []
    ensures Commits(path, PreorderForest(Nil, off), SearchForest(path, Nil, off))
  {}

  lemma BothCommit(path: seq<Bytes>, f: Forest, off: nat)
    requires path != [] && WellFormedForest(f) && f.Cons?
    requires Commits(path, Preorder(f.first, off), Search(path, f.first, off))
    requires var next := off + |Encode(f.first)|;
      Commits(path, PreorderForest(f.rest, next), SearchForest(path, f.rest, next))
    ensures Commits(path, PreorderForest(f, off), SearchForest(path, f, off))
  {
    ForestUnfolds(path, f, off);
    hide Commits, Search, SearchForest, Preorder, PreorderForest, Encode;
    var next := off + |Encode(f.first)|;
    CommitsBoth(path, Preorder(f.first, off), PreorderForest(f.rest, next),
                Search(path, f.first, off), SearchForest(path, f.rest, next));
  }

  lemma ForestUnfolds(path: seq<Bytes>, f: Forest, off: nat)
    requires path != [] && WellFormedForest(f) && f.Cons?
    ensures var next := off + |Encode(f.first)|;
      && PreorderForest(f, off) == Preorder(f.first, off) + PreorderForest(f.rest, next)
      && SearchForest(path, f, off) ==
           (var r := Search(path, f.first, off); if r.Miss? then SearchForest(path, f.rest, next) else r)
  {
    hide Search, Preorder, Encode;
  }

  /** The same node may match twice in a row: in a tree that holds a node a without children,
      the path a/a resolves to nothing, but the search returns a. */
  lemma RepeatedComponent(a: Bytes, off: nat)
    requires a != [] && forall k :: 0 <= k < |a| ==> a[k] != 0
    ensures var t := Node([], [], Cons(Node(a, [], Nil), Nil));
      && WellFormed(t) && Resolve([a, a], t, off) == None
      && Search([a, a], t, off) == Found(ChildrenAt(t, off))
  {
    var leaf := Node(a, [], Nil);
    var forest := Cons(leaf, Nil);
    assert WellFormedForest(Nil) && WellFormed(leaf) && WellFormedForest(forest);
    var at := ChildrenAt(Node([], [], forest), off);
    assert [a, a][1..] == [a];
    assert Search([a], leaf, at) == Found(at);
    assert Search([a, a], leaf, at) == Found(at);
    assert Resolve([a], leaf, at) == None;
    assert ResolveForest([a, a], Nil, at + |Encode(leaf)|) == None;
  }
}
