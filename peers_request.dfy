/**
 * PeersRequest, the message a node sends to a peer during discovery: the sending node
 * and the peers it already knows. The discovery-node type N and its wire form are left
 * abstract: a node codec and a size codec are parameters, and the round trip is proved
 * for any codecs that round-trip themselves.
 */
module Discovery {
  import opened Wrappers

  newtype byte = x: int | 0 <= x < 256

  type Bytes = seq<byte>

  /** A writer and a reader; the reader gives the value and the bytes that follow it. */
  datatype Codec<!T> = Codec(write: T -> Bytes, read: Bytes -> Option<(T, Bytes)>)

  /** Reading what was written gives the value back and leaves what followed it. */
  ghost predicate RoundTrips<T(!new)>(c: Codec<T>) {
    forall x: T, rest: Bytes :: c.read(c.write(x) + rest) == Some((x, rest))
  }

  datatype PeersRequest<N> = PeersRequest(sourceNode: N, knownPeers: seq<N>)

  /** The invariant the public constructor asserts. */
  predicate SourceNotAPeer<N(==)>(r: PeersRequest<N>) {
    r.sourceNode !in r.knownPeers
  }

  /**
   * The public constructor: its caller must not list the source among the known peers.
   * The getters return exactly the two arguments.
   */
  function NewPeersRequest<N(==)>(sourceNode: N, knownPeers: seq<N>): (r: PeersRequest<N>)
    requires sourceNode !in knownPeers
    ensures r.sourceNode == sourceNode && r.knownPeers == knownPeers
    ensures SourceNotAPeer(r)
  {
    PeersRequest(sourceNode, knownPeers)
  }

  // ---------------------------------------------------------------------------
  // writeTo and the stream constructor
  // ---------------------------------------------------------------------------

  function WriteElements<N>(node: Codec<N>, xs: seq<N>): Bytes
    decreases |xs|
  {
    if xs == [] then [] else node.write(xs[0]) + WriteElements(node, xs[1..])
  }

  /** StreamOutput.writeList: the size, then each element's own writeTo. */
  function WriteList<N>(size: Codec<nat>, node: Codec<N>, xs: seq<N>): Bytes {
    size.write(|xs|) + WriteElements(node, xs)
  }

  function ReadElements<N>(node: Codec<N>, n: nat, bytes: Bytes): Option<(seq<N>, Bytes)>
    decreases n
  {
    if n == 0 then Some(([], bytes))
    else
      match node.read(bytes)
      case None => None
      case Some((x, rest)) =>
        match ReadElements(node, n - 1, rest)
        case None => None
        case Some((xs, rest')) => Some(([x] + xs, rest'))
  }

  /** StreamInput.readList: the size, then that many elements. */
  function ReadList<N>(size: Codec<nat>, node: Codec<N>, bytes: Bytes): Option<(seq<N>, Bytes)> {
    match size.read(bytes)
    case None => None
    case Some((n, rest)) => ReadElements(node, n, rest)
  }

  /** writeTo: the source node first, then the list of known peers. */
  function WriteTo<N>(size: Codec<nat>, node: Codec<N>, r: PeersRequest<N>): Bytes {
    node.write(r.sourceNode) + WriteList(size, node, r.knownPeers)
  }

  /** The stream constructor: reads the two fields in the order writeTo wrote them. */
  function ReadFrom<N>(size: Codec<nat>, node: Codec<N>, bytes: Bytes): Option<(PeersRequest<N>, Bytes)> {
    match node.read(bytes)
    case None => None
    case Some((source, rest)) =>
      match ReadList(size, node, rest)
      case None => None
      case Some((peers, rest')) => Some((PeersRequest(source, peers), rest'))
  }

  lemma {:induction false} ReadElementsOfWritten<N(!new)>(node: Codec<N>, xs: seq<N>, rest: Bytes)
    requires RoundTrips(node)
    ensures ReadElements(node, |xs|, WriteElements(node, xs) + rest) == Some((xs, rest))
    decreases |xs|
  {
    if xs != [] {
      assert WriteElements(node, xs) + rest == node.write(xs[0]) + (WriteElements(node, xs[1..]) + rest);
      var tail := WriteElements(node, xs[1..]) + rest;
      assert node.read(node.write(xs[0]) + tail) == Some((xs[0], tail));
      ReadElementsOfWritten(node, xs[1..], rest);
      assert |xs[1..]| == |xs| - 1;
      assert [xs[0]] + xs[1..] == xs;
    } else {
      assert WriteElements(node, xs) + rest == rest;
    }
  }

  lemma ReadListOfWritten<N(!new)>(size: Codec<nat>, node: Codec<N>, xs: seq<N>, rest: Bytes)
    requires RoundTrips(size) && RoundTrips(node)
    ensures ReadList(size, node, WriteList(size, node, xs) + rest) == Some((xs, rest))
  {
    assert WriteList(size, node, xs) + rest == size.write(|xs|) + (WriteElements(node, xs) + rest);
    ReadElementsOfWritten(node, xs, rest);
  }

  /** Reading back what writeTo wrote gives an equal request and leaves what followed. */
  lemma PeersRequestRoundTrip<N(!new)>(size: Codec<nat>, node: Codec<N>, r: PeersRequest<N>, rest: Bytes)
    requires RoundTrips(size) && RoundTrips(node)
    ensures ReadFrom(size, node, WriteTo(size, node, r) + rest) == Some((r, rest))
  {
    assert WriteTo(size, node, r) + rest == node.write(r.sourceNode) + (WriteList(size, node, r.knownPeers) + rest);
    ReadListOfWritten(size, node, r.knownPeers, rest);
  }

  /**
   * The stream constructor does not check the constructor's invariant: a request whose
   * source is among its own peers is written and read back unchanged.
   */
  lemma StreamConstructorAcceptsSourceAmongPeers<N(!new)>(size: Codec<nat>, node: Codec<N>, n: N)
    requires RoundTrips(size) && RoundTrips(node)
    ensures !SourceNotAPeer(PeersRequest(n, [n]))
    ensures ReadFrom(size, node, WriteTo(size, node, PeersRequest(n, [n]))) == Some((PeersRequest(n, [n]), []))
  {
    var w := WriteTo(size, node, PeersRequest(n, [n]));
    PeersRequestRoundTrip(size, node, PeersRequest(n, [n]), []);
    assert w + [] == w;
  }

  // ---------------------------------------------------------------------------
  // equals and hashCode
  // ---------------------------------------------------------------------------

  /** equals: both fields equal; the peer lists are compared element by element, in order. */
  predicate Equals<N(==)>(a: PeersRequest<N>, b: PeersRequest<N>) {
    a.sourceNode == b.sourceNode && |a.knownPeers| == |b.knownPeers| &&
    forall i :: 0 <= i < |a.knownPeers| ==> a.knownPeers[i] == b.knownPeers[i]
  }

  /** Java int arithmetic: the value modulo 2^32, in [-2^31, 2^31). */
  function Wrap32(x: int): (r: int)
    ensures -0x8000_0000 <= r < 0x8000_0000
    ensures (x - r) % 0x1_0000_0000 == 0
  {
    (x + 0x8000_0000) % 0x1_0000_0000 - 0x8000_0000
  }

  /** List.hashCode: start at 1, then h = 31 * h + element hash for each element in order. */
  function ListHashCode<N>(hash: N -> int, xs: seq<N>): (h: int)
    ensures -0x8000_0000 <= h < 0x8000_0000
    ensures xs == [] ==> h == 1
    decreases |xs|
  {
    if xs == [] then 1 else Wrap32(31 * ListHashCode(hash, xs[..|xs| - 1]) + hash(xs[|xs| - 1]))
  }

  /** hashCode: Objects.hash(sourceNode, knownPeers). */
  function HashCode<N>(hash: N -> int, r: PeersRequest<N>): (h: int)
    ensures -0x8000_0000 <= h < 0x8000_0000
  {
    Wrap32(31 * Wrap32(31 * 1 + hash(r.sourceNode)) + ListHashCode(hash, r.knownPeers))
  }

  /** equals is exactly equality of the two fields, so of the whole value. */
  lemma {:induction false} EqualsIffSameFields<N>(a: PeersRequest<N>, b: PeersRequest<N>)
    ensures Equals(a, b) <==> (a.sourceNode == b.sourceNode && a.knownPeers == b.knownPeers)
    ensures Equals(a, b) <==> a == b
  {
    if Equals(a, b) {
      assert a.knownPeers == b.knownPeers;
    }
  }

  /** The peer lists are compared in order: the same peers listed differently are unequal. */
  lemma EqualsIsOrderSensitive<N>(source: N, x: N, y: N)
    requires x != y
    ensures !Equals(PeersRequest(source, [x, y]), PeersRequest(source, [y, x]))
  {
    assert [x, y][0] != [y, x][0];
  }

  /** Equal requests have equal hash codes. */
  lemma EqualRequestsHaveEqualHashCodes<N>(hash: N -> int, a: PeersRequest<N>, b: PeersRequest<N>)
    requires Equals(a, b)
    ensures HashCode(hash, a) == HashCode(hash, b)
  {
    EqualsIffSameFields(a, b);
  }
}
