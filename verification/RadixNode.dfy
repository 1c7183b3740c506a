/** The radix node and its canonical byte form. */
module RadixNode {
  import opened Base
  import opened Names

  const NODE_MAX_BYTES: nat := 16384
  const CHILD_MAX_COUNT: nat := 256
  const NODE_DOMAIN: Bytes := Ascii("mega.namespace-radix.v1\0")

  /** A child reference. Stored nodes point at digests; the specification's trees point at subtrees. */
  datatype Child<+X> = Child(edge: byte, target: X)

  /** A stored node; `lbl` is its compressed label. */
  datatype Node = Node(lbl: Bytes, binding: Option<Digest>, children: seq<Child<Digest>>)

  const EMPTY_NODE := Node([], None, [])

  /** The pairwise check of the constructor, over adjacent children. */
  predicate EdgesAscend<X>(children: seq<Child<X>>) {
    forall i :: 0 <= i < |children| - 1 ==> children[i].edge < children[i + 1].edge
  }

  /** An unbound node must have two children; only the empty root may have nothing at all. */
  predicate Compressed(label': Bytes, bound: bool, fanout: nat) {
    bound || fanout >= 2 || (fanout == 0 && label' == [])
  }

  function New(label': Bytes, binding: Option<Digest>, children: seq<Child<Digest>>): (r: CodecResult<Node>)
    ensures r.Ok? ==> r.value == Node(label', binding, children)
  {
    if |label'| > PATH_MAX_BYTES then Err(BadLength)
    else if |children| > CHILD_MAX_COUNT then Err(BadLength)
    else if !EdgesAscend(children) then Err(BadOrdering)
    else if !Compressed(label', binding.Some?, |children|) then Err(BadOrdering)
    else Ok(Node(label', binding, children))
  }

  /** The locally canonical shape that the constructor accepts. */
  predicate Canonical(n: Node) {
    New(n.lbl, n.binding, n.children).Ok?
  }

  /** Edges strictly ascend; a node is bound, or branches, or is the empty root. */
  lemma CanonicalMeans(n: Node)
    ensures Canonical(n) <==>
            && |n.lbl| <= 4096 && |n.children| <= 256
            && (forall i, j :: 0 <= i < j < |n.children| ==> n.children[i].edge < n.children[j].edge)
            && (n.binding.Some? || |n.children| >= 2 || n == Node([], None, []))
  {
    if EdgesAscend(n.children) {
      forall i, j | 0 <= i < j < |n.children| ensures n.children[i].edge < n.children[j].edge {
        AscendingIsSorted(n.children, i, j);
      }
    }
  }

  // ----- bytes -----

  /** `as u16` followed by `to_be_bytes`. */
  function Be16(n: nat): (b: Bytes)
    ensures |b| == 2
  {
    [(n / 256 % 256) as byte, (n % 256) as byte]
  }

  function BindingBytes(binding: Option<Digest>): Bytes {
    match binding
    case None => [0]
    case Some(d) => [1] + d
  }

  function ChildBytes(children: seq<Child<Digest>>): (b: Bytes)
    ensures |b| == 33 * |children|
  {
    if children == [] then [] else [children[0].edge] + children[0].target + ChildBytes(children[1..])
  }

  /** The fields after the domain; the length prefixes carry the lengths `as u16`. */
  function FieldBytes(n: Node): Bytes {
    Be16(|n.lbl|) + (n.lbl + (BindingBytes(n.binding) + (Be16(|n.children|) + ChildBytes(n.children))))
  }

  function NodeBytes(n: Node): Bytes {
    NODE_DOMAIN + FieldBytes(n)
  }

  method Encode(n: Node) returns (out: Bytes)
    ensures out == NodeBytes(n)
  {
    out := NODE_DOMAIN;
    out := out + Be16(|n.lbl|);
    out := out + n.lbl;
    out := out + [if n.binding.Some? then 1 else 0];
    if n.binding.Some? {
      out := out + n.binding.value;
    }
    out := out + Be16(|n.children|);
    assert out + ChildBytes(n.children) == NodeBytes(n);
    assert n.children[0..] == n.children;
    for i := 0 to |n.children|
      invariant out + ChildBytes(n.children[i..]) == NodeBytes(n)
    {
      assert n.children[i..][1..] == n.children[i + 1..];
      assert out + ChildBytes(n.children[i..])
          == out + [n.children[i].edge] + n.children[i].target + ChildBytes(n.children[i + 1..]);
      out := out + [n.children[i].edge];
      out := out + n.children[i].target;
    }
  }

  function Take(input: Bytes, count: nat): (r: CodecResult<(Bytes, Bytes)>)
    ensures r.Ok? <==> count <= |input|
    ensures r.Ok? ==> |r.value.0| == count && input == r.value.0 + r.value.1
    ensures r.Err? ==> r.error == Truncated
  {
    if count <= |input| then Ok((input[..count], input[count..])) else Err(Truncated)
  }

  function TakeU16(input: Bytes): (r: CodecResult<(nat, Bytes)>)
    ensures r.Ok? <==> 2 <= |input|
    ensures r.Ok? ==> r.value.0 < U16_LIMIT && input == Be16(r.value.0) + r.value.1
  {
    var (b, rest) :- Take(input, 2);
    Ok((256 * b[0] as nat + b[1] as nat, rest))
  }

  function TakeDigest(input: Bytes): (r: CodecResult<(Digest, Bytes)>)
    ensures r.Ok? <==> 32 <= |input|
    ensures r.Ok? ==> input == r.value.0 + r.value.1
  {
    var (b, rest) :- Take(input, 32);
    Ok((b, rest))
  }

  function TakeBinding(input: Bytes): (r: CodecResult<(Option<Digest>, Bytes)>)
    ensures r.Ok? ==> input == BindingBytes(r.value.0) + r.value.1
  {
    var (flag, rest) :- Take(input, 1);
    if flag[0] == 0 then Ok((None, rest))
    else if flag[0] == 1 then
      var (d, rest') :- TakeDigest(rest);
      Ok((Some(d), rest'))
    else Err(BadConstant)
  }

  function TakeChildren(input: Bytes, count: nat): (r: CodecResult<(seq<Child<Digest>>, Bytes)>)
    ensures r.Ok? ==> |r.value.0| == count && input == ChildBytes(r.value.0) + r.value.1
  {
    if count == 0 then Ok(([], input))
    else
      var (edge, rest) :- Take(input, 1);
      var (digest, rest) :- TakeDigest(rest);
      var (children, rest) :- TakeChildren(rest, count - 1);
      Ok(([Child(edge[0], digest)] + children, rest))
  }

  /** Specification of `decode`. */
  function DecodeNode(bytes: Bytes): CodecResult<Node> {
    if |bytes| > NODE_MAX_BYTES then Err(BadLength)
    else if !(NODE_DOMAIN <= bytes) then Err(BadConstant)
    else
      DecodeFields(bytes[|NODE_DOMAIN|..])
  }

  function DecodeFields(input: Bytes): (r: CodecResult<Node>)
    ensures r.Ok? ==> Canonical(r.value) && FieldBytes(r.value) == input
  {
    var (labelLen, input) :- TakeU16(input);
    if labelLen > PATH_MAX_BYTES then Err(BadLength)
    else
      var (label', input) :- Take(input, labelLen);
      var (binding, input) :- TakeBinding(input);
      var (count, input) :- TakeU16(input);
      if count > CHILD_MAX_COUNT then Err(BadLength)
      else
        var (children, input) :- TakeChildren(input, count);
        if input != [] then Err(BadLength)
        else
          assert ChildBytes(children) + [] == ChildBytes(children);
          New(label', binding, children)
  }

  /** The child loop of `decode`. */
  method DecodeChildren(input: Bytes, count: nat) returns (r: CodecResult<(seq<Child<Digest>>, Bytes)>)
    ensures r == TakeChildren(input, count)
  {
    var rest := input;
    var children: seq<Child<Digest>> := [];
    assert TakeChildren(input, count).Ok?
           ==> [] + TakeChildren(input, count).value.0 == TakeChildren(input, count).value.0;
    for i := 0 to count
      invariant TakeChildren(input, count) ==
                match TakeChildren(rest, count - i) {
                  case Err(e) => Err(e)
                  case Ok(tail) => Ok((children + tail.0, tail.1))
                }
    {
      var edge :- Take(rest, 1);
      var digest :- TakeDigest(edge.1);
      var child := Child(edge.0[0], digest.0);
      ghost var tail := TakeChildren(digest.1, count - i - 1);
      if tail.Ok? {
        Assoc(children, [child], tail.value.0);
      }
      children := children + [child];
      rest := digest.1;
    }
    assert children + [] == children;
    return Ok((children, rest));
  }

  /** Read a node off a shrinking input, as `decode` does. */
  method Decode(bytes: Bytes) returns (r: CodecResult<Node>)
    ensures r == DecodeNode(bytes)
  {
    if |bytes| > NODE_MAX_BYTES {
      return Err(BadLength);
    }
    if !(NODE_DOMAIN <= bytes) {
      return Err(BadConstant);
    }
    var length :- TakeU16(bytes[|NODE_DOMAIN|..]);
    if length.0 > PATH_MAX_BYTES {
      return Err(BadLength);
    }
    var text :- Take(length.1, length.0);
    var binding :- TakeBinding(text.1);
    var count :- TakeU16(binding.1);
    if count.0 > CHILD_MAX_COUNT {
      return Err(BadLength);
    }
    var children :- DecodeChildren(count.1, count.0);
    if children.1 != [] {
      return Err(BadLength);
    }
    return New(text.0, binding.0, children.0);
  }

  // ----- the byte form is canonical -----

  lemma {:induction false} AscendingIsSorted<X>(children: seq<Child<X>>, i: nat, j: nat)
    requires EdgesAscend(children) && i < j < |children|
    ensures children[i].edge < children[j].edge
    decreases j
  {
    if i + 1 < j {
      AscendingIsSorted(children, i, j - 1);
    }
  }

  /** Edges are bytes, so ascending children respect the fanout limit. */
  lemma {:induction false} AscendingFanout<X>(children: seq<Child<X>>)
    requires EdgesAscend(children)
    ensures |children| <= CHILD_MAX_COUNT
    ensures children != [] ==> |children| <= children[|children| - 1].edge as nat + 1
  {
    if |children| > 1 {
      var shorter := children[..|children| - 1];
      AscendingFanout(shorter);
      assert shorter[|shorter| - 1] == children[|children| - 2];
      assert children[|children| - 2].edge < children[|children| - 1].edge;
    }
  }

  /** A locally canonical node always fits the node size limit. */
  lemma NodeFits(n: Node)
    requires Canonical(n)
    ensures |NodeBytes(n)| <= NODE_MAX_BYTES
  {
  }

  lemma TakeBack(head: Bytes, tail: Bytes)
    ensures Take(head + tail, |head|) == Ok((head, tail))
  {
    assert (head + tail)[..|head|] == head && (head + tail)[|head|..] == tail;
  }

  lemma {:induction false} TakeChildrenOfBytes(children: seq<Child<Digest>>, rest: Bytes)
    ensures TakeChildren(ChildBytes(children) + rest, |children|) == Ok((children, rest))
  {
    if children == [] {
      assert ChildBytes(children) + rest == rest;
    } else {
      TakeChildrenOfBytes(children[1..], rest);
      TakeOneChild(children[0], children[1..], ChildBytes(children[1..]) + rest, rest);
      assert ChildBytes(children) + rest
          == [children[0].edge] + (children[0].target + (ChildBytes(children[1..]) + rest));
      assert [children[0]] + children[1..] == children;
    }
  }

  lemma TakeOneChild(child: Child<Digest>, more: seq<Child<Digest>>, tail: Bytes, rest: Bytes)
    requires TakeChildren(tail, |more|) == Ok((more, rest))
    ensures TakeChildren([child.edge] + (child.target + tail), |more| + 1) == Ok(([child] + more, rest))
  {
    TakeBack([child.edge], child.target + tail);
    TakeDigestBack(child.target, tail);
  }

  lemma TakeDigestBack(d: Digest, tail: Bytes)
    ensures TakeDigest(d + tail) == Ok((d, tail))
  {
    TakeBack(d, tail);
  }

  lemma TakeU16Back(n: U16, tail: Bytes)
    ensures TakeU16(Be16(n) + tail) == Ok((n, tail))
  {
    TakeBack(Be16(n), tail);
  }

  lemma TakeBindingBack(binding: Option<Digest>, tail: Bytes)
    ensures TakeBinding(BindingBytes(binding) + tail) == Ok((binding, tail))
  {
    match binding
    case None =>
      TakeBack([0], tail);
    case Some(d) =>
      TakeBack([1], d + tail);
      TakeBack(d, tail);
      assert BindingBytes(binding) + tail == [1] + (d + tail);
  }

  /** Everything the encoder writes for a canonical node reads back as that node. */
  lemma DecodeOfEncode(n: Node)
    requires Canonical(n)
    ensures DecodeNode(NodeBytes(n)) == Ok(n)
  {
    NodeFits(n);
    DecodeOfFields(n);
    assert NodeBytes(n)[|NODE_DOMAIN|..] == FieldBytes(n);
  }

  lemma DecodeOfFields(n: Node)
    requires Canonical(n)
    ensures DecodeFields(FieldBytes(n)) == Ok(n)
  {
    var b5 := ChildBytes(n.children);
    var b4 := Be16(|n.children|) + b5;
    var b3 := BindingBytes(n.binding) + b4;
    TakeU16Back(|n.lbl|, n.lbl + b3);
    TakeBack(n.lbl, b3);
    TakeBindingBack(n.binding, b4);
    TakeU16Back(|n.children|, b5);
    TakeChildrenOfBytes(n.children, []);
    assert b5 + [] == b5;
  }

  /** One byte string per node: an accepted buffer is the encoding of what it decodes to. */
  lemma EncodeOfDecode(bytes: Bytes)
    requires DecodeNode(bytes).Ok?
    ensures Canonical(DecodeNode(bytes).value)
    ensures NodeBytes(DecodeNode(bytes).value) == bytes
  {
    assert bytes == NODE_DOMAIN + bytes[|NODE_DOMAIN|..];
  }

  lemma NodeBytesInjective(m: Node, n: Node)
    requires Canonical(m) && Canonical(n) && NodeBytes(m) == NodeBytes(n)
    ensures m == n
  {
    DecodeOfEncode(m);
    DecodeOfEncode(n);
  }
}
