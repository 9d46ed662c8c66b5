/**
 A key from its configured text to the octets of the SADB_ADD message: filter, decoder, the C
 string copies in between, and the key extension.
 */
module KeyPipeline {
  import opened Bytes
  import opened Text
  import opened Wire
  import opened Extensions
  import opened HexKey
  import opened SadEntry
  import opened ChangeStream
  import opened SadReader
  import opened SadSchema
  import opened SadOrder
  import opened MessageBuffer
  import opened SaMessage
  import opened SaRoundTrip

  /** strcpy from a decoded buffer: octets up to the first zero. */
  method CopyKey(chrs: array<byte>) returns (key: seq<byte>)
    requires chrs.Length > 0 && chrs[chrs.Length - 1] == 0
    ensures key == CutAtZero(chrs[..])
  {
    key := [];
    var i := 0;
    while chrs[i] != 0
      invariant i < chrs.Length
      invariant key + CutAtZero(chrs[i..]) == CutAtZero(chrs[..])
      decreases chrs.Length - i
    {
      assert chrs[i..] == [chrs[i]] + chrs[i + 1..];
      key, i := key + [chrs[i]], i + 1;
    }
    assert chrs[i..][0] == 0;
  }

  lemma {:induction false} CutBeforeZero(bs: seq<byte>)
    ensures CutAtZero(bs + [0]) == CutAtZero(bs)
  {
    if bs != [] && bs[0] != 0 {
      assert (bs + [0])[1..] == bs[1..] + [0];
      CutBeforeZero(bs[1..]);
    }
  }

  /** What the reader does with the text of a key leaf. The text must decode. */
  method DecodeKeyText(text: string) returns (key: seq<byte>)
    requires NUL !in text && |Without(text, ':')| % 2 == 0
    ensures key == KeyOf(Str(text))
  {
    var a := new char[|text| + 1](i requires 0 <= i <= |text| => if i < |text| then text[i] else NUL);
    assert a[|text|] == NUL && a[..|text|] == text;
    CStringIs(a[..], |text|);
    var chrs := HexToOctets(a);
    key := CopyKey(chrs);
    CutBeforeZero(DecodePairs(Without(text, ':')));
  }

  /** A decoded key survives the copies exactly when none of its octets is zero. */
  lemma {:induction false} CutIsWholeIff(bs: seq<byte>)
    ensures CutAtZero(bs) == bs <==> 0 !in bs
    ensures CutAtZero(bs) <= bs
  {
    if bs != [] && bs[0] != 0 {
      CutIsWholeIff(bs[1..]);
      assert bs == [bs[0]] + bs[1..];
      assert 0 in bs <==> 0 in bs[1..];
    }
  }

  /** Of a key with a zero octet everything in front of the first one is kept. */
  lemma {:induction false} CutIsFront(front: seq<byte>, behind: seq<byte>)
    requires 0 !in front
    ensures CutAtZero(front + [0] + behind) == front
    decreases |front|
  {
    var all := front + [0] + behind;
    if front != [] {
      assert all[1..] == front[1..] + [0] + behind;
      CutIsFront(front[1..], behind);
      assert front == [front[0]] + front[1..];
    }
  }

  lemma StoredKeyIff(text: string)
    requires HexString(text)
    ensures KeyOf(Str(text)) == Denoted(text) <==> 0 !in Denoted(text)
    ensures KeyOf(Str(text)) <= Denoted(text)
  {
    DecodesGrammar(text);
    CutIsWholeIff(Denoted(text));
  }

  // ----- one key leaf, from its path to the message

  /** What the key leaf of an entry with this name does to its entry. */
  function WithKey(d: SadData, name: string, n: SadSchema.Node, text: string): SadData {
    SadApply(d, Change(Created, PathOf(name, n), Str(text))).entry
  }

  lemma EncryptionLeaf(d: SadData, name: string, text: string)
    ensures var k := KeyOf(Str(text));
            WithKey(d, name, NEncryptionKey, text) ==
            if Contains(name, "/integrity") then d.(encryptionKey := k, integrityKey := k) else d.(encryptionKey := k)
  {
    hide TargetOf, PathOf, Contains, KeyOf;
    SchemaTarget(name, NEncryptionKey);
  }

  lemma IntegrityLeaf(d: SadData, name: string, text: string)
    ensures var k := KeyOf(Str(text));
            WithKey(d, name, NIntegrityKey, text) ==
            if Contains(name, "/encryption") then d.(encryptionKey := k, integrityKey := k) else d.(integrityKey := k)
  {
    hide TargetOf, PathOf, Contains, KeyOf;
    SchemaTarget(name, NIntegrityKey);
  }

  /**
   End to end: configure any entry, whatever its name, with a hex-string encryption key that has
   no zero octet and fits the extension of its algorithm. The key extension of its SADB_ADD then
   carries the denoted octets followed only by zeros, and the declared bits lie inside the
   extension for every algorithm but AES-CBC. The integrity key is as it was exactly if the
   name does not contain /integrity, or the two keys are the same.
   */
  lemma EncryptionKeyArrives(d: SadData, name: string, text: string, host: Host)
    requires HexString(text) && 0 !in Denoted(text)
    requires d.encryptionAlg != SADB_EALG_NONE && |Denoted(text)| <= 8 * EncryptWords(d.encryptionAlg) - 8
    requires Addable(d)
    ensures var d' := WithKey(d, name, NEncryptionKey, text);
            && Addable(d') && Decodable(AddMessage(d', host), AddCuts(d', host))
            && var k := Decode(AddMessage(d', host), AddCuts(d', host)).encrypt;
               && k.Some?
               && IsPadded(k.value.payload, Denoted(text))
               && (k.value.bits <= 8 * |k.value.payload| <==> d.encryptionAlg != SADB_X_EALG_AESCBC)
               && (d'.integrityKey == d.integrityKey <==>
                   !Contains(name, "/integrity") || Denoted(text) == d.integrityKey)
  {
    hide AddMessage, AddCuts, Decode, Decodable, Overlay, KeyOf, HexString, HexKey.Denoted, WithKey, Contains;
    var d' := WithKey(d, name, NEncryptionKey, text);
    StoredKeyIff(text);
    EncryptionLeaf(d, name, text);
    AddRoundTrip(d', host);
    EncryptPayloadAlways(d');
    KeyBitsCovered(d');
    assert Spill(d') == [];
  }

  /**
   The same for an integrity key that fits its buffer, with the exact condition: it must fit its
   extension, and no octet of an oversized encryption key may reach behind it. The encryption key
   is as it was exactly if the name does not contain /encryption, or the two keys are the same.
   */
  lemma IntegrityKeyArrivesIff(d: SadData, name: string, text: string, host: Host)
    requires HexString(text) && 0 !in Denoted(text)
    requires d.integrityAlg != SADB_AALG_NONE && Addable(d) && |Denoted(text)| < MAX_KEY
    ensures var d' := WithKey(d, name, NIntegrityKey, text);
            && Addable(d') && Decodable(AddMessage(d', host), AddCuts(d', host))
            && var k := Decode(AddMessage(d', host), AddCuts(d', host)).auth;
               && k.Some?
               && (IsPadded(k.value.payload, Denoted(text)) <==>
                   |Denoted(text)| <= 24 && (|Spill(d')| <= |Denoted(text)| || |Denoted(text)| == 24))
               && k.value.bits <= 8 * |k.value.payload|
               && (d'.encryptionKey == d.encryptionKey <==>
                   !Contains(name, "/encryption") || Denoted(text) == d.encryptionKey)
  {
    hide AddMessage, AddCuts, Decode, Decodable, Overlay, KeyOf, HexString, HexKey.Denoted, WithKey, Contains;
    var d' := WithKey(d, name, NIntegrityKey, text);
    StoredKeyIff(text);
    IntegrityLeaf(d, name, text);
    AddRoundTrip(d', host);
    AuthPayloadExact(d');
    KeyBitsCovered(d');
  }

  // ----- both key leaves

  /** A key that a leaf can hold and an extension of n octets can carry. */
  predicate Carried(text: string, n: nat) {
    HexString(text) && 0 !in Denoted(text) && |Denoted(text)| <= n
  }

  /**
   Under a safe name both keys arrive, in whichever order their leaves come: each extension
   carries the octets of its own key and zeros.
   */
  lemma BothKeysArrive(d: SadData, name: string, enc: string, auth: string, authFirst: bool, host: Host)
    requires SafeName(name) && Addable(d)
    requires d.encryptionAlg != SADB_EALG_NONE && d.integrityAlg != SADB_AALG_NONE
    requires Carried(enc, 8 * EncryptWords(d.encryptionAlg) - 8) && Carried(auth, 24)
    ensures var r := ReadAll(d, name,
                             if authFirst then Pair(NIntegrityKey, Str(auth), NEncryptionKey, Str(enc))
                             else Pair(NEncryptionKey, Str(enc), NIntegrityKey, Str(auth)));
            && r.Next? && Addable(r.entry)
            && Decodable(AddMessage(r.entry, host), AddCuts(r.entry, host))
            && var a := Decode(AddMessage(r.entry, host), AddCuts(r.entry, host));
               && a.encrypt.Some? && IsPadded(a.encrypt.value.payload, Denoted(enc))
               && a.auth.Some? && IsPadded(a.auth.value.payload, Denoted(auth))
  {
    hide AddMessage, AddCuts, Decode, Decodable, Overlay, KeyOf, HexString, HexKey.Denoted, ReadAll, Contains, Pair;
    BothKeysRead(d, name, enc, auth, authFirst);
    StoredKeyIff(enc);
    StoredKeyIff(auth);
    var e := d.(encryptionKey := KeyOf(Str(enc)), integrityKey := KeyOf(Str(auth)));
    AddRoundTrip(e, host);
    EncryptPayloadAlways(e);
    AuthPayloadExact(e);
    assert Spill(e) == [];
  }

  lemma BothKeysRead(d: SadData, name: string, enc: string, auth: string, authFirst: bool)
    requires SafeName(name)
    ensures ReadAll(d, name,
                    if authFirst then Pair(NIntegrityKey, Str(auth), NEncryptionKey, Str(enc))
                    else Pair(NEncryptionKey, Str(enc), NIntegrityKey, Str(auth))) ==
            Next(d.(encryptionKey := KeyOf(Str(enc)), integrityKey := KeyOf(Str(auth))))
  {
    hide ReadAll, KeyOf, Contains;
    var e, a := Setting(NEncryptionKey, Str(enc)), Setting(NIntegrityKey, Str(auth));
    TwoLeaves(d, name, e, a);
    TwoLeaves(d, name, a, e);
  }
}
