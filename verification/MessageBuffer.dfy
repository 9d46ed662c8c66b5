/**
 What the message builders share: the host they run on, and a zeroed buffer filled from the
 front by a cursor.
 */
module MessageBuffer {
  import opened Bytes
  import opened Text
  import opened Wire
  import opened Extensions

  const BUFFER_SIZE := 4096
  /** What the host contributes: process id, inet_addr, and octets the heap left behind. */
  datatype Host = Host(
    pid: nat, inet: string -> Quad, srcPad: Pad, dstPad: Pad, tunnelSrcPad: Pad, tunnelDstPad: Pad)

  /** One end of the traffic: the arguments of an address extension that vary. */
  datatype Endpoint = Endpoint(prefixlen: nat, quad: Quad)

  function Satype(protocolParameters: nat): nat {
    if protocolParameters == IPPROTO_ESP then SADB_SATYPE_ESP else 0
  }

  /** A subnet text that splits into an address and a length; the source assumes one. */
  predicate Splits(subnet: string) {
    GetIp(subnet).Some? && GetMask(subnet).Some?
  }

  function SubnetEnd(subnet: string, host: Host): Endpoint
    requires Splits(subnet)
  {
    Endpoint(Wrap(GetMask(subnet).value, 1), host.inet(GetIp(subnet).value))
  }

  // ----- building in place

  /** s sits at the front of the buffer and everything after it is still zero. */
  ghost predicate Holds(buf: array<byte>, s: seq<byte>)
    reads buf
  {
    && |s| <= buf.Length
    && buf[..|s|] == s
    && forall k | |s| <= k < buf.Length :: buf[k] == 0
  }

  /** Copy octets to position p, as memcpy or an assignment to a field does. */
  method Put(buf: array<byte>, p: nat, s: seq<byte>)
    requires p + |s| <= buf.Length
    modifies buf
    ensures forall k | 0 <= k < buf.Length ::
              buf[k] == if p <= k < p + |s| then s[k - p] else old(buf[k])
  {
    for i := 0 to |s|
      invariant forall k | 0 <= k < buf.Length ::
                  buf[k] == if p <= k < p + i then s[k - p] else old(buf[k])
    {
      buf[p + i] := s[i];
    }
  }

  /** Append a whole structure; the cursor moves by its size. */
  method Append(buf: array<byte>, p: nat, s: seq<byte>, ghost before: seq<byte>) returns (q: nat)
    requires Holds(buf, before) && p == |before| && p + |s| <= buf.Length
    modifies buf
    ensures Holds(buf, before + s) && q == p + |s|
  {
    Put(buf, p, s);
    q := p + |s|;
    assert buf[..q] == before + s;
  }

  /** Append a whole extension behind the header h and the extensions es. */
  method AppendExt(buf: array<byte>, p: nat, e: seq<byte>, ghost h: seq<byte>, ghost es: seq<seq<byte>>)
    returns (q: nat)
    requires Holds(buf, h + Flatten(es)) && p == |h + Flatten(es)| && p + |e| <= buf.Length
    modifies buf
    ensures Holds(buf, h + Flatten(es + [e])) && q == p + |e| == |h + Flatten(es + [e])|
  {
    q := Append(buf, p, e, h + Flatten(es));
    FlattenAppend(es, e);
    assert h + Flatten(es + [e]) == h + Flatten(es) + e;
  }

  /** `pf_setsadbaddr`: an address extension with its socket address, returning its size. */
  method SetAddress(buf: array<byte>, p: nat, ty: nat, proto: nat, prefixlen: nat, port: nat, quad: Quad, pad: Pad,
                    ghost h: seq<byte>, ghost es: seq<seq<byte>>)
    returns (len: nat)
    requires Holds(buf, h + Flatten(es)) && p == |h + Flatten(es)| && p + 24 <= buf.Length
    modifies buf
    ensures Holds(buf, h + Flatten(es + [Address(ty, proto, prefixlen, port, quad, pad)])) && len == 24
    ensures p + len == |h + Flatten(es + [Address(ty, proto, prefixlen, port, quad, pad)])|
  {
    hide AddressHeader, SockAddr, Le, Be;
    ghost var before, e := h + Flatten(es), Address(ty, proto, prefixlen, port, quad, pad);
    var q := Append(buf, p, AddressHeader(ty, proto, prefixlen), before);
    q := Append(buf, q, SockAddr(port, quad, pad), before + AddressHeader(ty, proto, prefixlen));
    FlattenAppend(es, e);
    assert before + AddressHeader(ty, proto, prefixlen) + SockAddr(port, quad, pad) == h + Flatten(es + [e]);
    len := q - p;
  }

  /** The length field is stored last, when the running length is known. */
  method SetLength(buf: array<byte>, len: nat, ty: nat, satype: nat, pid: nat, ghost body: seq<byte>)
    requires 16 <= len <= buf.Length && buf[..len] == Header(ty, satype, 0, pid) + body
    modifies buf
    ensures buf[..len] == Header(ty, satype, len / 8, pid) + body
  {
    hide Le, Be;
    Put(buf, 4, Le(len / 8, 2));
    ghost var h, h' := Header(ty, satype, 0, pid), Header(ty, satype, len / 8, pid);
    assert forall k | 0 <= k < 16 :: h'[k] == if 4 <= k < 6 then Le(len / 8, 2)[k - 4] else h[k];
    assert buf[..len] == h' + body;
  }

  /** A new zeroed buffer with the message header in front; its length field is still zero. */
  method Begin(ty: nat, satype: nat, pid: nat) returns (buf: array<byte>, p: nat)
    ensures fresh(buf) && buf.Length == BUFFER_SIZE && p == 16
    ensures Holds(buf, Header(ty, satype, 0, pid))
    ensures Holds(buf, Header(ty, satype, 0, pid) + Flatten([]))
  {
    hide Header;
    buf := new byte[BUFFER_SIZE](_ => 0);
    p := Append(buf, 0, Header(ty, satype, 0, pid), []);
    ghost var h := Header(ty, satype, 0, pid);
    assert [] + h == h == h + Flatten([]);
  }
}
