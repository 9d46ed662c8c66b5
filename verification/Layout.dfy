/**
 The structures of RFC 2367, section 2.3, octet by octet: what the encoders write and where the
 readers look, in plain arithmetic. Host order has the low octet first, network order last.
 */
module Layout {
  import opened Bytes
  import opened Text
  import opened Wire
  import opened Extensions

  lemma TwoOctets(n: nat)
    ensures Le(n, 2) == [n % 256, n / 256 % 256] && Be(n, 2) == [n / 256 % 256, n % 256]
  {
  }

  lemma FourOctets(n: nat)
    ensures Le(n, 4) == [n % 256, n / 0x100 % 256, n / 0x1_0000 % 256, n / 0x100_0000 % 256]
    ensures Be(n, 4) == [n / 0x100_0000 % 256, n / 0x1_0000 % 256, n / 0x100 % 256, n % 256]
  {
    assert n / 256 / 256 == n / 0x1_0000 && n / 0x1_0000 / 256 == n / 0x100_0000;
    TwoOctets(n / 0x1_0000);
    assert Le(n, 4) == [n % 256, n / 256 % 256] + Le(n / 0x1_0000, 2) by {
      assert Le(n, 4) == [n % 256] + Le(n / 256, 3) && Le(n / 256, 3) == [n / 256 % 256] + Le(n / 256 / 256, 2);
    }
    assert Be(n, 4) == Be(n / 0x1_0000, 2) + [n / 256 % 256, n % 256] by {
      assert Be(n, 4) == Be(n / 256, 3) + [n % 256] && Be(n / 256, 3) == Be(n / 256 / 256, 2) + [n / 256 % 256];
    }
  }

  lemma EightOctets(n: nat)
    ensures Le(n, 8) == Le(n, 4) + Le(n / 0x1_0000_0000, 4)
  {
    assert n / 256 / 256 == n / 0x1_0000 && n / 0x1_0000 / 256 == n / 0x100_0000;
    assert n / 0x100_0000 / 256 == n / 0x1_0000_0000;
    LeUnfolds(n, 8);
    LeUnfolds(n / 256, 7);
    LeUnfolds(n / 0x1_0000, 6);
    LeUnfolds(n / 0x100_0000, 5);
    FourOctets(n);
    hide Le;
    var rest := Le(n / 0x1_0000_0000, 4);
    assert Le(n, 8) == [n % 256] + ([n / 256 % 256] + ([n / 0x1_0000 % 256] + ([n / 0x100_0000 % 256] + rest)));
  }

  lemma LeUnfolds(n: nat, w: nat)
    requires w > 0
    ensures Le(n, w) == [n % 256] + Le(n / 256, w - 1)
  {
  }

  /** Numbers in a message: low octet first, except for SPIs and ports. */
  lemma NumbersAt(m: seq<byte>, o: nat)
    ensures o + 2 <= |m| ==>
              var a, b := U8At(m, o), U8At(m, o + 1);
              U16At(m, o) == a + 0x100 * b && Be16At(m, o) == 0x100 * a + b
    ensures o + 4 <= |m| ==>
              var a, b, c, d := U8At(m, o), U8At(m, o + 1), U8At(m, o + 2), U8At(m, o + 3);
              && U32At(m, o) == a + 0x100 * b + 0x1_0000 * c + 0x100_0000 * d
              && Be32At(m, o) == 0x100_0000 * a + 0x1_0000 * b + 0x100 * c + d
    ensures o + 8 <= |m| ==> U64At(m, o) == U32At(m, o) + 0x1_0000_0000 * U32At(m, o + 4)
  {
    if o + 2 <= |m| {
      Two(m[o..o + 2]);
    }
    if o + 4 <= |m| {
      Four(m[o..o + 4]);
    }
    if o + 8 <= |m| {
      Eight(m[o..o + 8]);
      assert m[o..o + 8][..4] == m[o..o + 4] && m[o..o + 8][4..] == m[o + 4..o + 8];
    }
  }

  lemma Low(s: seq<byte>)
    requires s != []
    ensures FromLe(s) == U8At(s, 0) + 256 * FromLe(s[1..])
    ensures FromBe(s) == 256 * FromBe(s[..|s| - 1]) + U8At(s, |s| - 1)
  {
  }

  lemma Two(s: seq<byte>)
    requires |s| == 2
    ensures FromLe(s) == U8At(s, 0) + 256 * U8At(s, 1)
    ensures FromBe(s) == 256 * U8At(s, 0) + U8At(s, 1)
  {
    Low(s);
    Low(s[1..]);
    Low(s[..1]);
  }

  lemma Four(s: seq<byte>)
    requires |s| == 4
    ensures FromLe(s) == U8At(s, 0) + 0x100 * U8At(s, 1) + 0x1_0000 * U8At(s, 2) + 0x100_0000 * U8At(s, 3)
    ensures FromBe(s) == 0x100_0000 * U8At(s, 0) + 0x1_0000 * U8At(s, 1) + 0x100 * U8At(s, 2) + U8At(s, 3)
  {
    Low(s);
    Low(s[1..]);
    Low(s[..3]);
    assert s[1..][1..] == s[2..] && s[..3][..2] == s[..2];
    Two(s[2..]);
    Two(s[..2]);
  }

  lemma Eight(s: seq<byte>)
    requires |s| == 8
    ensures FromLe(s) == FromLe(s[..4]) + 0x1_0000_0000 * FromLe(s[4..])
  {
    hide FromLe;
    Low(s);
    Low(s[1..]);
    Low(s[2..]);
    Low(s[3..]);
    assert s[1..][1..] == s[2..] && s[2..][1..] == s[3..] && s[3..][1..] == s[4..];
    Four(s[..4]);
  }

  // ----- what is written

  lemma HeaderOctets(ty: nat, satype: nat, words: nat, pid: nat)
    ensures Header(ty, satype, words, pid) ==
            [2, ty % 256, 0, satype % 256, words % 256, words / 256 % 256, 0, 0, 0, 0, 0, 0,
             pid % 256, pid / 0x100 % 256, pid / 0x1_0000 % 256, pid / 0x100_0000 % 256]
  {
    hide Le, Be;
    OneOctet(2);
    OneOctet(ty);
    OneOctet(satype);
    OneOctet(0);
    TwoOctets(words);
    TwoOctets(0);
    FourOctets(0);
    FourOctets(pid);
  }

  lemma OneOctet(n: nat)
    ensures Le(n, 1) == [n % 256]
  {
  }

  lemma SaOctets(spi: nat, replay: nat, state: nat, auth: nat, encrypt: nat)
    ensures Sa(spi, replay, state, auth, encrypt) ==
            [2, 0, 1, 0, spi / 0x100_0000 % 256, spi / 0x1_0000 % 256, spi / 0x100 % 256, spi % 256,
             replay % 256, state % 256, auth % 256, encrypt % 256, 0, 0, 0, 0]
  {
    hide Le, Be;
    TwoOctets(2);
    TwoOctets(1);
    FourOctets(spi);
    OneOctet(replay);
    OneOctet(state);
    OneOctet(auth);
    OneOctet(encrypt);
    FourOctets(0);
  }

  lemma Sa2Octets(mode: nat, reqid: nat)
    ensures Sa2(mode, reqid) ==
            [2, 0, 19, 0, mode % 256, 0, 0, 0, 0, 0, 0, 0,
             reqid % 256, reqid / 0x100 % 256, reqid / 0x1_0000 % 256, reqid / 0x100_0000 % 256]
  {
    hide Le, Be;
    TwoOctets(2);
    TwoOctets(19);
    TwoOctets(0);
    OneOctet(mode);
    OneOctet(0);
    FourOctets(0);
    FourOctets(reqid);
  }

  lemma LifetimeOctets(ty: nat, allocations: nat, octets: nat, addtime: nat, usetime: nat)
    ensures var e := Lifetime(ty, allocations, octets, addtime, usetime);
            && e[..8] == [4, 0, ty % 256, ty / 256 % 256, allocations % 256, allocations / 0x100 % 256,
                          allocations / 0x1_0000 % 256, allocations / 0x100_0000 % 256]
            && e[8..16] == Le(octets, 8) && e[16..24] == Le(addtime, 8) && e[24..32] == Le(usetime, 8)
  {
    hide Le, Be;
    TwoOctets(4);
    TwoOctets(ty);
    FourOctets(allocations);
    var h := Le(4, 2) + Le(ty, 2) + Le(allocations, 4);
    ThreeMore(h, Le(octets, 8), Le(addtime, 8), Le(usetime, 8));
  }

  lemma ThreeMore(h: seq<byte>, a: seq<byte>, b: seq<byte>, c: seq<byte>)
    requires |h| == |a| == |b| == |c| == 8
    ensures var e := h + (a + b + c); e[..8] == h && e[8..16] == a && e[16..24] == b && e[24..32] == c
  {
  }

  lemma AddressOctets(ty: nat, proto: nat, prefixlen: nat, port: nat, quad: Quad, pad: Pad)
    ensures Address(ty, proto, prefixlen, port, quad, pad) ==
            [3, 0, ty % 256, ty / 256 % 256, proto % 256, prefixlen % 256, 0, 0,
             2, 0, port / 256 % 256, port % 256] + quad + pad
  {
    hide Le, Be;
    TwoOctets(3);
    TwoOctets(ty);
    TwoOctets(2);
    TwoOctets(0);
    TwoOctets(port);
    OneOctet(proto);
    OneOctet(prefixlen);
  }

  lemma KeyOctets(ty: nat, words: nat, bits: nat)
    ensures KeyHeader(ty, words, bits) ==
            [words % 256, words / 256 % 256, ty % 256, ty / 256 % 256, bits % 256, bits / 256 % 256, 0, 0]
  {
    hide Le, Be;
    TwoOctets(words);
    TwoOctets(ty);
    TwoOctets(bits);
    TwoOctets(0);
  }

  lemma PolicyOctets(words: nat, ty: nat, dir: nat, id: nat)
    ensures PolicyHeader(words, ty, dir, id) ==
            [words % 256, words / 256 % 256, 18, 0, ty % 256, ty / 256 % 256, dir % 256, 0,
             id % 256, id / 0x100 % 256, id / 0x1_0000 % 256, id / 0x100_0000 % 256, 0, 0, 0, 0]
  {
    hide Le, Be;
    TwoOctets(words);
    TwoOctets(18);
    TwoOctets(ty);
    OneOctet(dir);
    OneOctet(0);
    FourOctets(id);
    FourOctets(0);
  }

  lemma RequestOctets(len: nat, proto: nat, mode: nat, level: nat, reqid: nat)
    ensures RequestHeader(len, proto, mode, level, reqid) ==
            [len % 256, len / 256 % 256, proto % 256, proto / 256 % 256, mode % 256, level % 256, 0, 0,
             reqid % 256, reqid / 0x100 % 256, reqid / 0x1_0000 % 256, reqid / 0x100_0000 % 256, 0, 0, 0, 0]
  {
    hide Le, Be;
    TwoOctets(len);
    TwoOctets(proto);
    TwoOctets(0);
    OneOctet(mode);
    OneOctet(level);
    FourOctets(reqid);
    FourOctets(0);
  }

  // ----- where the readers look

  /** A header: version, type, error, type of association, length, sequence number, process id. */
  lemma HeaderIsRead(m: seq<byte>)
    requires |m| >= 16
    ensures ReadHeader(m[..16]) ==
            HeaderView(m[0], m[1], m[2], m[3], U16At(m, 4), U32At(m, 8), U32At(m, 12))
    ensures MsgWords(m) == U8At(m, 4) + 0x100 * U8At(m, 5)
  {
    hide FromLe;
    NumbersAt(m, 4);
    var h := m[..16];
    assert h[4..6] == m[4..6] && h[8..12] == m[8..12] && h[12..16] == m[12..16];
  }

  /** The numbers of RFC 2367, section 3, and of the Linux policy extensions. */
  lemma Numbers()
    ensures PF_KEY_V2 == 2 && SADB_ADD == 3 && SADB_DELETE == 4 && SADB_GET == 5
    ensures SADB_ACQUIRE == 6 && SADB_EXPIRE == 8 && SADB_X_SPDADD == 14 && SADB_X_SPDDELETE == 15
    ensures SADB_EXT_SA == 1 && SADB_EXT_LIFETIME_CURRENT == 2 && SADB_EXT_LIFETIME_HARD == 3
    ensures SADB_EXT_LIFETIME_SOFT == 4 && SADB_EXT_ADDRESS_SRC == 5 && SADB_EXT_ADDRESS_DST == 6
    ensures SADB_EXT_KEY_AUTH == 8 && SADB_EXT_KEY_ENCRYPT == 9 && SADB_X_EXT_POLICY == 18
    ensures SADB_X_EXT_SA2 == 19 && SADB_EXT_MAX == 26
  {
  }
}
