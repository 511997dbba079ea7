/** Which packets belong to the same conversation. */
module FlowKeys {
  import opened Serial
  import opened FlowModel

  datatype Endpoint = Endpoint(address: Address, port: nat)

  /** Only TCP and UDP have ports. */
  function Source(p: DecodedPacket): Endpoint {
    Endpoint(p.src, if p.l4 == TCP || p.l4 == UDP then p.sport else 0)
  }

  function Destination(p: DecodedPacket): Endpoint {
    Endpoint(p.dst, if p.l4 == TCP || p.l4 == UDP then p.dport else 0)
  }

  lemma {:induction false} LexTotal(a: seq<byte>, b: seq<byte>)
    requires |a| == |b|
    ensures LexLess(a, b) <==> a != b && !LexLess(b, a)
  {
    if a != [] {
      LexTotal(a[1..], b[1..]);
      assert a == [a[0]] + a[1..] && b == [b[0]] + b[1..];
    }
  }

  lemma AddressTotal(a: Address, b: Address)
    ensures AddressLess(a, b) <==> a != b && !AddressLess(b, a)
  {
    LexTotal(a.bytes, b.bytes);
  }

  /** Two packets share a flow exactly when they carry the same protocol between the same two endpoints,
      either way round. */
  lemma SameKeyIff(p: DecodedPacket, q: DecodedPacket)
    ensures KeyOf(p) == KeyOf(q) <==>
            p.ipProto == q.ipProto
            && ((Source(p) == Source(q) && Destination(p) == Destination(q))
                || (Source(p) == Destination(q) && Destination(p) == Source(q)))
  {
    AddressTotal(p.src, p.dst);
    AddressTotal(q.src, q.dst);
  }

  /** Within a flow, two packets count for the same direction exactly when they come from the same endpoint. */
  lemma SameDirectionIff(p: DecodedPacket, q: DecodedPacket)
    requires KeyOf(p) == KeyOf(q)
    ensures Forward(p) == Forward(q) <==> Source(p) == Source(q)
  {
    SameKeyIff(p, q);
    AddressTotal(p.src, p.dst);
    AddressTotal(q.src, q.dst);
  }

  /** Bytes are compared at their first difference. */
  lemma {:induction false} FirstDifference(a: seq<byte>, b: seq<byte>)
    requires |a| == |b|
    ensures LexLess(a, b) <==> exists i | 0 <= i < |a| :: a[..i] == b[..i] && a[i] < b[i]
  {
    if a != [] {
      FirstDifference(a[1..], b[1..]);
      if a[0] < b[0] {
        assert a[..0] == b[..0];
      } else if a[0] == b[0] {
        if i :| 0 <= i < |a[1..]| && a[1..][..i] == b[1..][..i] && a[1..][i] < b[1..][i] {
          assert a[..i + 1] == [a[0]] + a[1..][..i] && b[..i + 1] == [b[0]] + b[1..][..i];
        }
        if i :| 0 <= i < |a| && a[..i] == b[..i] && a[i] < b[i] {
          assert i > 0 && a[1..][..i - 1] == a[..i][1..] && b[1..][..i - 1] == b[..i][1..];
        }
      }
    }
  }

  /** IPv4 before IPv6, then by the bytes, then by the port. */
  predicate Before(x: Endpoint, y: Endpoint) {
    if x.address.isV6 != y.address.isV6 then y.address.isV6
    else if x.address.bytes != y.address.bytes then LexLess(x.address.bytes, y.address.bytes)
    else x.port < y.port
  }

  /** A key names the packet's two endpoints, the lesser first, and a packet goes forward when it comes from that one. */
  lemma KeyNamesEndpoints(p: DecodedPacket)
    ensures var k := KeyOf(p);
            var a, b := Endpoint(k.a, k.portA), Endpoint(k.b, k.portB);
            && !Before(b, a) && k.proto == p.ipProto
            && (Forward(p) <==> !Before(Destination(p), Source(p)))
            && (if Forward(p) then a == Source(p) && b == Destination(p) else a == Destination(p) && b == Source(p))
  {
    AddressTotal(p.src, p.dst);
  }
}
