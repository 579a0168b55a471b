/** The walk over the bytes of a device tree blob (circle/lib/devicetreeblob.cpp). */
module DeviceTreeBlob {
  import opened Basics
  import opened DeviceTreeSpec

  const OFF_DT_STRUCT := 8
  const OFF_DT_STRINGS := 12
  const HEADER_SIZE := 40
  const PROPERTY_SIZE := 12

  lemma Parts(t: Tree)
    requires WellFormed(t)
    ensures WellFormedForest(t.children) && forall k :: 0 <= k < |t.name| ==> t.name[k] != 0
    ensures forall k :: 0 <= k < |t.props| ==> |t.props[k].data| < UINT32_RANGE
  {}

  lemma SplitHead(path: Bytes)
    ensures var n, r := HeadLength(path), Split(path);
      && r[0] == path[..n] && (|r| == 1 <==> n == |path|)
      && (n < |path| ==> r[1..] == Split(path[n + 1..]))
  {
    hide HeadLength;
    var n := HeadLength(path);
    if n < |path| {
      var first, tail := [path[..n]], Split(path[n + 1..]);
      assert Split(path) == first + tail;
      assert (first + tail)[1..] == tail;
    }
  }

  /** The parts of the encoding of a node that lies at an offset */
  lemma NodeLayout(b: Bytes, off: nat, t: Tree)
    requires WellFormed(t) && Holds(b, off, Encode(t))
    ensures off + 4 <= |b| && ReadWord(b, off) == FDT_BEGIN_NODE == 1
    ensures Holds(b, off + 4, EncodeName(t.name))
    ensures Holds(b, off + 4 + |EncodeName(t.name)|,
                  EncodeProps(t.props) + (EncodeForest(t.children) + Word(FDT_END_NODE)))
    ensures |Encode(t)| == ChildrenAt(t, 0) + |EncodeForest(t.children)| + 4
  {
    hide Word, EncodeName, EncodeProps, EncodeForest, Holds, ReadWord;
    var tail := EncodeProps(t.props) + (EncodeForest(t.children) + Word(FDT_END_NODE));
    HoldsBoth(b, off, Word(FDT_BEGIN_NODE), EncodeName(t.name) + tail);
    HoldsBoth(b, off + 4, EncodeName(t.name), tail);
    HoldsInside(b, off, Word(FDT_BEGIN_NODE));
    WordRoundTrip(b, off, FDT_BEGIN_NODE);
  }

  lemma HoldsInside(b: Bytes, off: nat, part: Bytes)
    requires Holds(b, off, part)
    ensures off + |part| <= |b|
  {}

  lemma NameLayout(b: Bytes, off: nat, name: Bytes)
    requires Holds(b, off, EncodeName(name))
    ensures off + |name| < |b| && b[off..off + |name|] == name && b[off + |name|] == 0
    ensures |EncodeName(name)| == Align(|name| + 1)
  {
    hide Align;
    var e := EncodeName(name);
    assert e[..|name| + 1] == name + [0];
    forall k | 0 <= k < |name|
      ensures b[off + k] == name[k]
    {
      assert b[off + k] == b[off..off + |e|][k] == e[k] == e[..|name| + 1][k];
    }
    assert b[off + |name|] == b[off..off + |e|][|name|] == e[|name|] == e[..|name| + 1][|name|];
  }

  /** The next token behind a property list is that of a property or of what follows. */
  lemma PropertyLayout(b: Bytes, off: nat, p: Property, rest: Bytes)
    requires |p.data| < UINT32_RANGE && Holds(b, off, EncodeProperty(p) + rest)
    ensures off + PROPERTY_SIZE <= |b| && ReadWord(b, off) == FDT_PROP == 3
    ensures ReadWord(b, off + 4) == |p.data| && ReadWord(b, off + 8) == p.nameOff
    ensures off + 12 + |p.data| <= |b| && b[off + 12..off + 12 + |p.data|] == p.data
    ensures |EncodeProperty(p)| == PROPERTY_SIZE + Align(|p.data|)
    ensures Holds(b, off + PROPERTY_SIZE + Align(|p.data|), rest)
  {
    hide Word, Padded, Holds, ReadWord;
    HoldsBoth(b, off, EncodeProperty(p), rest);
    var t2 := Word(p.nameOff) + Padded(p.data);
    HoldsBoth(b, off, Word(FDT_PROP), Word(|p.data|) + t2);
    HoldsBoth(b, off + 4, Word(|p.data|), t2);
    HoldsBoth(b, off + 8, Word(p.nameOff), Padded(p.data));
    HoldsInside(b, off + 8, Word(p.nameOff));
    PaddedData(b, off + 12, p.data);
    WordRoundTrip(b, off, FDT_PROP);
    WordRoundTrip(b, off + 4, |p.data|);
    WordRoundTrip(b, off + 8, p.nameOff);
  }

  lemma PaddedData(b: Bytes, off: nat, data: Bytes)
    requires Holds(b, off, Padded(data))
    ensures off + |data| <= |b| && b[off..off + |data|] == data
  {
    hide Align;
    assert b[off..off + |data|] == b[off..off + |Padded(data)|][..|data|];
  }

  lemma PropsStep(b: Bytes, off: nat, props: seq<Property>, rest: Bytes)
    requires forall k :: 0 <= k < |props| ==> |props[k].data| < UINT32_RANGE
    requires props != [] && Holds(b, off, EncodeProps(props) + rest)
    ensures Holds(b, off, EncodeProperty(props[0]) + (EncodeProps(props[1..]) + rest))
    ensures |EncodeProps(props)| == |EncodeProperty(props[0])| + |EncodeProps(props[1..])|
  {
    hide EncodeProperty;
    assert EncodeProps(props) + rest == EncodeProperty(props[0]) + (EncodeProps(props[1..]) + rest);
  }

  lemma ForestStep(b: Bytes, off: nat, f: Forest, end: Bytes)
    requires WellFormedForest(f) && f.Cons? && Holds(b, off, EncodeForest(f) + end)
    ensures WellFormed(f.first) && WellFormedForest(f.rest)
    ensures Holds(b, off, Encode(f.first)) && Holds(b, off + |Encode(f.first)|, EncodeForest(f.rest) + end)
    ensures |EncodeForest(f)| == |Encode(f.first)| + |EncodeForest(f.rest)|
  {
    hide Holds;
    assert EncodeForest(f) + end == Encode(f.first) + (EncodeForest(f.rest) + end);
    HoldsBoth(b, off, Encode(f.first), EncodeForest(f.rest) + end);
  }

  /** The token behind the children: another node or the end of this one */
  lemma ForestToken(b: Bytes, off: nat, f: Forest)
    requires WellFormedForest(f) && Holds(b, off, EncodeForest(f) + Word(FDT_END_NODE))
    ensures off + 4 <= |b|
    ensures ReadWord(b, off) == if f.Cons? then FDT_BEGIN_NODE else FDT_END_NODE
    ensures f.Nil? ==> |EncodeForest(f)| == 0
  {
    hide Holds, Encode;
    if f.Cons? {
      ForestStep(b, off, f, Word(FDT_END_NODE));
      NodeLayout(b, off, f.first);
    } else {
      assert EncodeForest(f) + Word(FDT_END_NODE) == Word(FDT_END_NODE);
      HoldsInside(b, off, Word(FDT_END_NODE));
      WordRoundTrip(b, off, FDT_END_NODE);
    }
  }

  /** The bytes at the offset begin a node with the name. */
  ghost predicate BeginsNode(b: Bytes, off: nat, name: Bytes) {
    && off + 4 + |name| < |b| && ReadWord(b, off) == 1
    && b[off + 4..off + 4 + |name|] == name && b[off + 4 + |name|] == 0
  }

  /** Wherever a chain ends there is a node with the last name. */
  lemma {:induction false} ChainEndsAtNode(b: Bytes, path: seq<Bytes>, t: Tree, off: nat, target: nat)
    requires path != [] && WellFormed(t) && Holds(b, off, Encode(t)) && Leads(path, t, off, target)
    requires path[|path| - 1] != []
    ensures BeginsNode(b, target, path[|path| - 1])
    decreases |path|, t
  {
    hide Holds, ReadWord, Encode;
    if LeadsForest(path, t.children, ChildrenAt(t, off), target) {
      ChildrenHeld(b, t, off);
      ChainInForestEndsAtNode(b, path, t.children, ChildrenAt(t, off), target);
    } else if |path| > 1 {
      ChainEndsAtNode(b, path[1..], t, off, target);
    } else {
      NodeLayout(b, off, t);
      NameLayout(b, off + 4, t.name);
    }
  }

  lemma {:induction false} ChainInForestEndsAtNode(b: Bytes, path: seq<Bytes>, f: Forest, off: nat, target: nat)
    requires path != [] && WellFormedForest(f) && Holds(b, off, EncodeForest(f) + Word(FDT_END_NODE))
    requires LeadsForest(path, f, off, target) && path[|path| - 1] != []
    ensures BeginsNode(b, target, path[|path| - 1])
    decreases |path|, f
  {
    hide Holds, ReadWord, Encode, EncodeForest, BeginsNode;
    ForestStep(b, off, f, Word(FDT_END_NODE));
    if Leads(path, f.first, off, target) {
      ChainEndsAtNode(b, path, f.first, off, target);
    } else {
      ChainInForestEndsAtNode(b, path, f.rest, off + |Encode(f.first)|, target);
    }
  }

  lemma ChildrenHeld(b: Bytes, t: Tree, off: nat)
    requires WellFormed(t) && Holds(b, off, Encode(t))
    ensures WellFormedForest(t.children)
    ensures Holds(b, ChildrenAt(t, off), EncodeForest(t.children) + Word(FDT_END_NODE))
  {
    hide Word, EncodeName, EncodeProps, EncodeForest, Holds, ReadWord;
    NodeLayout(b, off, t);
    HoldsBoth(b, off + 4 + |EncodeName(t.name)|, EncodeProps(t.props), EncodeForest(t.children) + Word(FDT_END_NODE));
  }

  class CDeviceTreeBlob {
    const ftd: Bytes

    constructor (ftd: Bytes)
      ensures this.ftd == ftd
    {
      this.ftd := ftd;
    }

    /** strlen of a string in the blob */
    method StrLen(off: nat, ghost s: Bytes) returns (n: nat)
      requires off + |s| < |ftd| && ftd[off..off + |s|] == s && ftd[off + |s|] == 0
      requires forall k :: 0 <= k < |s| ==> s[k] != 0
      ensures n == |s|
    {
      n := 0;
      assert forall k :: 0 <= k < |s| ==> s[k] == ftd[off + k];
      while ftd[off + n] != 0
        invariant n <= |s|
        invariant n < |s| ==> ftd[off + n] == s[n]
        decreases |s| - n
      {
        n := n + 1;
      }
    }

    /** Length of the first component: strchr, or strlen if there is no slash */
    method ComponentLength(path: Bytes) returns (n: nat)
      ensures n == HeadLength(path)
    {
      n := 0;
      while n < |path| && path[n] != SLASH
        invariant n <= |path| && HeadLength(path) == n + HeadLength(path[n..])
      {
        assert path[n..][1..] == path[n + 1..];
        n := n + 1;
      }
    }

    /** Where the walk starts: at a node, or at the root behind a leading slash */
    predicate StartsAt(path: Bytes, pNode: Option<nat>, at: nat) {
      match pNode
      case Some(p) => p == at
      case None => |ftd| >= HEADER_SIZE && at == ReadWord(ftd, OFF_DT_STRUCT)
    }

    function PathFrom(path: Bytes, pNode: Option<nat>): Option<Bytes> {
      if pNode.Some? then Some(path)
      else if path != [] && path[0] == SLASH then Some(path[1..]) else None
    }

    /** The walk over the bytes refines the search on the tree. After a miss the next pointer is
        exactly behind the FDT_END_NODE token of the node. */
    method FindNodeInternal(path: Bytes, pNode: Option<nat>, wantNext: bool, ghost t: Tree, ghost at: nat)
      returns (node: Option<nat>, next: Option<nat>)
      requires WellFormed(t) && Holds(ftd, at, Encode(t)) && StartsAt(path, pNode, at)
      ensures match PathFrom(path, pNode)
        case None => node == None && next == None
        case Some(p) =>
          match Search(Split(p), t, at)
          case Found(o) => node == Some(o)
          case Miss => node == None && next == if wantNext then Some(at + |Encode(t)|) else None
          case Abort => node == None && next == None
      decreases |path|, t
    {
      hide Holds, Word, ReadWord, EncodeName, EncodeProperty, Encode, EncodeForest, EncodeProps, Align, Split,
           HeadLength, WellFormed, WellFormedForest, SearchForest;
      node, next := None, None;
      NodeLayout(ftd, at, t);
      Parts(t);
      var p: nat, rest := 0, path;
      if pNode.None? {
        if path == [] || path[0] != SLASH {
          return;
        }
        p := ReadWord(ftd, OFF_DT_STRUCT);
        rest := path[1..];
      } else {
        p := pNode.value;
      }
      if ReadWord(ftd, p) != FDT_BEGIN_NODE {
        return;
      }
      ghost var components := Split(rest);
      SplitHead(rest);
      if rest == [] {
        return Some(p), None;
      }
      var nLen := ComponentLength(rest);
      if nLen == 0 {
        return;
      }
      NameLayout(ftd, p + 4, t.name);
      var nNameLen := StrLen(p + 4, t.name);
      if ftd[p + 4..p + 4 + nNameLen] == rest[..nLen] {
        if nLen < |rest| {
          var found, _ := FindNodeInternal(rest[nLen + 1..], Some(p), false, t, at);
          return found, None;
        }
        return Some(p), None;
      }

      var piece: nat := p + 4 + Align(nNameLen + 1);
      piece := SkipProperties(piece, t, at);
      node, next := FindInChildren(rest, piece, wantNext, t.children);
    }

    /** The loop over the children: from the first child to the end of the node */
    method FindInChildren(path: Bytes, start: nat, wantNext: bool, ghost children: Forest)
      returns (node: Option<nat>, next: Option<nat>)
      requires WellFormedForest(children) && Holds(ftd, start, EncodeForest(children) + Word(FDT_END_NODE))
      ensures match SearchForest(Split(path), children, start)
        case Found(o) => node == Some(o)
        case Miss => node == None && next == if wantNext then Some(start + |EncodeForest(children)| + 4) else None
        case Abort => node == None && next == None
      decreases |path|, children
    {
      hide Holds, Word, ReadWord, EncodeName, EncodeProperty, Encode, EncodeForest, EncodeProps, Align, Split,
           HeadLength, WellFormed, WellFormedForest, Search;
      node, next := None, None;
      var piece: nat := start;
      ghost var f := children;
      ForestToken(ftd, piece, f);
      var token := ReadWord(ftd, piece);
      while token == FDT_BEGIN_NODE
        invariant WellFormedForest(f) && (f == children || f < children)
        invariant Holds(ftd, piece, EncodeForest(f) + Word(FDT_END_NODE))
        invariant piece + |EncodeForest(f)| == start + |EncodeForest(children)|
        invariant SearchForest(Split(path), children, start) == SearchForest(Split(path), f, piece)
        invariant piece + 4 <= |ftd| && token == ReadWord(ftd, piece)
        invariant token == (if f.Cons? then FDT_BEGIN_NODE else FDT_END_NODE) && (f.Nil? ==> |EncodeForest(f)| == 0)
        decreases f
      {
        ForestStep(ftd, piece, f, Word(FDT_END_NODE));
        var found, behind := FindNodeInternal(path, Some(piece), true, f.first, piece);
        if found.Some? {
          return found, None;
        }
        if behind.None? {
          return;
        }
        piece := behind.value;
        f := f.rest;
        ForestToken(ftd, piece, f);
        token := ReadWord(ftd, piece);
      }
      if token == FDT_END_NODE && wantNext {
        next := Some(piece + 4);
      }
    }

    /** The loop over the properties: from the first token behind the name to the first child */
    method SkipProperties(start: nat, ghost t: Tree, ghost at: nat) returns (piece: nat)
      requires WellFormed(t) && Holds(ftd, at, Encode(t)) && start == at + 4 + |EncodeName(t.name)|
      ensures piece == ChildrenAt(t, at)
      ensures Holds(ftd, piece, EncodeForest(t.children) + Word(FDT_END_NODE))
    {
      hide Holds, Word, ReadWord, EncodeName, EncodeProperty, Encode, EncodeForest, Align;
      NodeLayout(ftd, at, t);
      ghost var end := EncodeForest(t.children) + Word(FDT_END_NODE);
      ghost var props := t.props;
      piece := start;
      NextToken(props, t, piece);
      while ReadWord(ftd, piece) == FDT_PROP
        invariant forall k :: 0 <= k < |props| ==> |props[k].data| < UINT32_RANGE
        invariant Holds(ftd, piece, EncodeProps(props) + end) && piece + |EncodeProps(props)| == ChildrenAt(t, at)
        invariant piece + 4 <= |ftd| && (ReadWord(ftd, piece) == FDT_PROP <==> props != [])
        decreases |props|
      {
        PropsStep(ftd, piece, props, end);
        PropertyLayout(ftd, piece, props[0], EncodeProps(props[1..]) + end);
        piece := piece + PROPERTY_SIZE + Align(ReadWord(ftd, piece + 4));
        props := props[1..];
        NextToken(props, t, piece);
      }
      assert EncodeProps(props) + end == end;
    }

    lemma NextToken(props: seq<Property>, t: Tree, piece: nat)
      requires WellFormed(t) && forall k :: 0 <= k < |props| ==> |props[k].data| < UINT32_RANGE
      requires Holds(ftd, piece, EncodeProps(props) + (EncodeForest(t.children) + Word(FDT_END_NODE)))
      ensures piece + 4 <= |ftd| && (ReadWord(ftd, piece) == FDT_PROP <==> props != [])
    {
      hide Holds, Word, ReadWord, EncodeProperty, EncodeForest, Align;
      var end := EncodeForest(t.children) + Word(FDT_END_NODE);
      if props != [] {
        PropsStep(ftd, piece, props, end);
        PropertyLayout(ftd, piece, props[0], EncodeProps(props[1..]) + end);
      } else {
        assert EncodeProps(props) + end == end;
        ForestToken(ftd, piece, t.children);
      }
    }

    /** The bytes at the offset begin a node that has the last component of the path as its name. */
    ghost predicate Named(path: Bytes, off: nat) {
      var components := Split(path);
      var last := components[|components| - 1];
      last != [] ==> BeginsNode(ftd, off, last)
    }

    /** The node at the offset, or nothing if the search fails */
    method FindNode(path: Bytes, pNode: Option<nat>, ghost t: Tree, ghost at: nat) returns (node: Option<nat>)
      requires WellFormed(t) && Holds(ftd, at, Encode(t)) && StartsAt(path, pNode, at)
      ensures node == match PathFrom(path, pNode)
                      case None => None
                      case Some(p) => var r := Search(Split(p), t, at); if r.Found? then Some(r.off) else None
      ensures node.Some? ==> PathFrom(path, pNode).Some? && Named(PathFrom(path, pNode).value, node.value)
      ensures path == [47] && pNode.None? ==> node == Some(ReadWord(ftd, 8))
    {
      var r, _ := FindNodeInternal(path, pNode, false, t, at);
      node := r;
      if node.Some? {
        FoundAtNode(PathFrom(path, pNode).value, t, at);
      }
      RootFound(t, at);
    }

    lemma FoundAtNode(path: Bytes, t: Tree, at: nat)
      requires WellFormed(t) && Holds(ftd, at, Encode(t)) && Search(Split(path), t, at).Found?
      ensures Named(path, Search(Split(path), t, at).off)
    {
      hide Holds, Encode, Split, BeginsNode, Search;
      var components := Split(path);
      FoundIsChain(components, t, at);
      if components[|components| - 1] != [] {
        ChainEndsAtNode(ftd, components, t, at, Search(components, t, at).off);
      }
    }

    /** Name of a property in the strings block */
    ghost predicate HasName(p: Property, name: Bytes)
      requires |ftd| >= HEADER_SIZE
    {
      var o := ReadWord(ftd, OFF_DT_STRINGS) + p.nameOff;
      o + |name| < |ftd| && ftd[o..o + |name|] == name && ftd[o + |name|] == 0
    }

    /** The walk over the properties of a node has come to the k-th, or behind the last one. */
    ghost predicate AtProperty(t: Tree, pNode: nat, k: nat, piece: nat)
      requires WellFormed(t)
    {
      && k <= |t.props| && piece == PropertyAt(t, pNode, k)
      && Holds(ftd, piece, EncodeProps(t.props[k..]) + (EncodeForest(t.children) + Word(FDT_END_NODE)))
    }

    lemma PropertyToken(t: Tree, pNode: nat, k: nat, piece: nat)
      requires WellFormed(t) && AtProperty(t, pNode, k, piece)
      ensures piece + 4 <= |ftd| && k <= |t.props| && (ReadWord(ftd, piece) == FDT_PROP <==> k < |t.props|)
    {
      hide Holds, ReadWord, Word, EncodeProps, EncodeForest;
      Parts(t);
      NextToken(t.props[k..], t, piece);
    }

    lemma NextProperty(t: Tree, pNode: nat, k: nat, piece: nat)
      requires WellFormed(t) && AtProperty(t, pNode, k, piece) && k < |t.props|
      ensures piece + PROPERTY_SIZE <= |ftd| && ReadWord(ftd, piece + 8) == t.props[k].nameOff
      ensures AtProperty(t, pNode, k + 1, piece + PROPERTY_SIZE + Align(ReadWord(ftd, piece + 4)))
      ensures HoldsProperty(piece, t.props[k])
    {
      hide Holds, Word, ReadWord, EncodeName, EncodeProperty, EncodeForest, Align, WellFormed;
      Parts(t);
      var end := EncodeForest(t.children) + Word(FDT_END_NODE);
      PropsStep(ftd, piece, t.props[k..], end);
      PropertyLayout(ftd, piece, t.props[k], EncodeProps(t.props[k..][1..]) + end);
      assert t.props[k..][1..] == t.props[k + 1..];
      PropertyAtNext(t, pNode, k);
    }

    /** The bytes at the offset are the property: token, length, name offset and data. */
    ghost predicate HoldsProperty(off: nat, p: Property) {
      && off + 12 + |p.data| <= |ftd| && ReadWord(ftd, off) == 3 && ReadWord(ftd, off + 4) == |p.data|
      && ReadWord(ftd, off + 8) == p.nameOff && ftd[off + 12..off + 12 + |p.data|] == p.data
    }

    /** The first property of the node with that name */
    method FindProperty(pNode: nat, pName: Bytes, ghost t: Tree, ghost names: seq<Bytes>)
      returns (property: Option<nat>)
      requires |ftd| >= HEADER_SIZE && WellFormed(t) && Holds(ftd, pNode, Encode(t))
      requires |names| == |t.props|
      requires forall k :: 0 <= k < |names| ==>
        HasName(t.props[k], names[k]) && forall i :: 0 <= i < |names[k]| ==> names[k][i] != 0
      ensures property.None? <==> pName !in names
      ensures property.Some? ==> exists k | 0 <= k < |t.props| ::
        && FirstNamed(names, pName, k)
        && property.value == PropertyAt(t, pNode, k) && HoldsProperty(property.value, t.props[k])
    {
      hide Holds, Word, ReadWord, EncodeName, EncodeProperty, EncodeProps, Encode, EncodeForest, Align, WellFormed;
      NodeLayout(ftd, pNode, t);
      Parts(t);
      if ReadWord(ftd, pNode) != FDT_BEGIN_NODE {
        return None;
      }
      NameLayout(ftd, pNode + 4, t.name);
      var nNameLen := StrLen(pNode + 4, t.name);
      var piece: nat := pNode + 4 + Align(nNameLen + 1);
      ghost var k := 0;
      assert AtProperty(t, pNode, 0, piece) by { FirstProperty(t, pNode); }
      hide AtProperty, PropertyAt, HoldsProperty;
      PropertyToken(t, pNode, 0, piece);
      while ReadWord(ftd, piece) == FDT_PROP
        invariant k <= |names| && pName !in names[..k] && AtProperty(t, pNode, k, piece)
        invariant piece + 4 <= |ftd| && (ReadWord(ftd, piece) == FDT_PROP <==> k < |t.props|)
        decreases |names| - k
      {
        NextProperty(t, pNode, k, piece);
        assert HasName(t.props[k], names[k]);
        var name: nat := ReadWord(ftd, OFF_DT_STRINGS) + ReadWord(ftd, piece + 8);
        var n := StrLen(name, names[k]);
        if ftd[name..name + n] == pName {
          WhichProperty(t, pNode, k, piece);
          assert FirstNamed(names, pName, k);
          return Some(piece);
        }
        piece := piece + PROPERTY_SIZE + Align(ReadWord(ftd, piece + 4));
        k := k + 1;
        PropertyToken(t, pNode, k, piece);
      }
      assert names[..k] == names;
      return None;
    }

    lemma WhichProperty(t: Tree, pNode: nat, k: nat, piece: nat)
      requires WellFormed(t) && AtProperty(t, pNode, k, piece)
      ensures k <= |t.props| && piece == PropertyAt(t, pNode, k)
    {}
  }

  lemma FirstProperty(t: Tree, off: nat)
    requires WellFormed(t)
    ensures PropertyAt(t, off, 0) == off + 4 + |EncodeName(t.name)| && t.props[0..] == t.props
  {
    assert t.props[..0] == [];
  }

  ghost predicate FirstNamed(names: seq<Bytes>, name: Bytes, k: nat) {
    k < |names| && names[k] == name && name !in names[..k]
  }

  /** Offset of a property of a node that lies at an offset */
  function PropertyAt(t: Tree, off: nat, k: nat): nat
    requires WellFormed(t) && k <= |t.props|
  {
    off + 4 + |EncodeName(t.name)| + |EncodeProps(t.props[..k])|
  }

  lemma PropertyAtNext(t: Tree, off: nat, k: nat)
    requires WellFormed(t) && k < |t.props|
    ensures PropertyAt(t, off, k + 1) == PropertyAt(t, off, k) + PROPERTY_SIZE + Align(|t.props[k].data|)
  {
    PropsAppend(t.props[..k], t.props[k]);
    assert t.props[..k + 1] == t.props[..k] + [t.props[k]];
  }

  lemma {:induction false} PropsAppend(props: seq<Property>, p: Property)
    requires |p.data| < UINT32_RANGE && forall k :: 0 <= k < |props| ==> |props[k].data| < UINT32_RANGE
    ensures |EncodeProps(props + [p])| == |EncodeProps(props)| + PROPERTY_SIZE + Align(|p.data|)
  {
    if props == [] {
      assert props + [p] == [p];
    } else {
      assert (props + [p])[1..] == props[1..] + [p];
      PropsAppend(props[1..], p);
    }
  }
}
