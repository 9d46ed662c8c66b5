/**
 Key text: the in-place filter that drops the colons of a hex-string, the arithmetic decoder,
 and the hex-string grammar of RFC 6991, section 3, against which both are judged.
 */
module HexKey {
  import opened Bytes

  const NUL: char := '\0'

  /** The C string at the front of a buffer. */
  function CString(s: string): string {
    if s == "" || s[0] == NUL then "" else [s[0]] + CString(s[1..])
  }

  function Without(s: string, c: char): string {
    if s == "" then "" else (if s[0] == c then "" else [s[0]]) + Without(s[1..], c)
  }

  lemma {:induction false} CStringIs(s: string, n: nat)
    requires n < |s| && s[n] == NUL && NUL !in s[..n]
    ensures CString(s) == s[..n]
    decreases n
  {
    if n > 0 {
      assert s[0] == s[..n][0];
      assert s[1..][..n - 1] == s[..n][1..];
      CStringIs(s[1..], n - 1);
    }
  }

  lemma {:induction false} CStringLength(s: string)
    requires NUL in s
    ensures var n := |CString(s)|; n < |s| && s[n] == NUL && s[..n] == CString(s) && NUL !in s[..n]
  {
    if s[0] != NUL {
      CStringLength(s[1..]);
      var n := |CString(s[1..])|;
      assert s[..n + 1] == [s[0]] + s[1..][..n];
    }
  }

  lemma {:induction false} WithoutAppend(s: string, x: char, c: char)
    ensures Without(s + [x], c) == Without(s, c) + (if x == c then "" else [x])
  {
    var t := if x == c then "" else [x];
    if s == "" {
      assert s + [x] == [x] && [x][1..] == "";
      assert t + "" == t;
    } else {
      WithoutAppend(s[1..], x, c);
      var h := if s[0] == c then "" else [s[0]];
      assert (s + [x])[0] == s[0] && (s + [x])[1..] == s[1..] + [x];
      assert h + (Without(s[1..], c) + t) == h + Without(s[1..], c) + t;
    }
  }

  lemma {:induction false} WithoutKeepsNul(s: string, c: char)
    requires NUL !in s
    ensures NUL !in Without(s, c) && |Without(s, c)| <= |s|
  {
    if s != "" {
      assert forall k | 0 <= k < |s| - 1 :: s[1..][k] == s[k + 1];
      WithoutKeepsNul(s[1..], c);
    }
  }

  /**
   `remove_all_chars`: one reading and one writing index over the same buffer. The string
   becomes its filtered text; nothing after the new terminator changes.
   */
  method RemoveAllChars(a: array<char>, c: char)
    requires c != NUL && NUL in a[..]
    modifies a
    ensures CString(a[..]) == Without(old(CString(a[..])), c)
    ensures NUL in a[..]
    ensures forall k | |CString(a[..])| < k < a.Length :: a[k] == old(a[k])
  {
    ghost var s := CString(a[..]);
    CStringLength(a[..]);
    var pr, pw := 0, 0;
    while a[pr] != NUL
      invariant 0 <= pw <= pr <= |s|
      invariant a[..pw] == Without(s[..pr], c)
      invariant forall k | pw < k < a.Length :: a[k] == old(a[k])
      invariant pw == pr ==> a[pw] == old(a[pw])
      decreases |s| - pr
    {
      assert a[pr] == old(a[pr]) == s[pr];
      assert s[..pr + 1] == s[..pr] + [s[pr]];
      WithoutAppend(s[..pr], s[pr], c);
      a[pw] := a[pr];
      pr := pr + 1;
      pw := pw + (if a[pw] != c then 1 else 0);
      assert a[..pw] == Without(s[..pr], c);
    }
    assert s[..pr] == s;
    WithoutKeepsNul(s, c);
    a[pw] := NUL;
    assert a[..pw] == Without(s, c);
    CStringIs(a[..], pw);
  }

  // ----- the decoder

  /** (c % 32 + 9) % 25, the value the source gives a character. */
  function HexVal(c: char): nat {
    ((c as int) % 32 + 9) % 25
  }

  function PairOctet(hi: char, lo: char): byte {
    (HexVal(hi) * 16 + HexVal(lo)) % 256
  }

  function DecodePairs(s: string): (r: seq<byte>)
    ensures |r| == |s| / 2
  {
    if |s| < 2 then [] else [PairOctet(s[0], s[1])] + DecodePairs(s[2..])
  }

  lemma {:induction false} DecodePairsAppend(s: string, t: string)
    requires |s| % 2 == 0
    ensures DecodePairs(s + t) == DecodePairs(s) + DecodePairs(t)
    decreases |s|
  {
    if s == "" {
      assert s + t == t;
    } else {
      assert (s + t)[2..] == s[2..] + t;
      DecodePairsAppend(s[2..], t);
    }
  }

  method Strlen(a: array<char>) returns (len: nat)
    requires NUL in a[..]
    ensures len == |CString(a[..])|
  {
    ghost var s := CString(a[..]);
    CStringLength(a[..]);
    len := 0;
    while a[len] != NUL
      invariant len <= |s|
      decreases |s| - len
    {
      assert a[len] == s[len];
      len := len + 1;
    }
  }

  /** `hexstr_to_char`: null for an odd count, otherwise the octets and a terminating zero. */
  method HexToOctets(a: array<char>) returns (chrs: array?<byte>)
    requires NUL in a[..]
    modifies a
    ensures CString(a[..]) == Without(old(CString(a[..])), ':')
    ensures chrs == null <==> |CString(a[..])| % 2 != 0
    ensures chrs != null ==> fresh(chrs) && chrs[..] == DecodePairs(CString(a[..])) + [0]
  {
    RemoveAllChars(a, ':');
    var len := Strlen(a);
    if len % 2 != 0 {
      return null;
    }
    chrs := DecodeLoop(a, len);
  }

  method DecodeLoop(a: array<char>, len: nat) returns (chrs: array<byte>)
    requires NUL in a[..] && len == |CString(a[..])| && len % 2 == 0
    ensures fresh(chrs) && chrs[..] == DecodePairs(CString(a[..])) + [0]
  {
    hide HexVal;
    CStringLength(a[..]);
    ghost var s := a[..len];
    var n := len / 2;
    chrs := new byte[n + 1];
    var i, j := 0, 0;
    while j < n
      invariant j <= n && i == 2 * j
      invariant chrs[..j] == DecodePairs(s[..i])
    {
      assert s[..i + 2] == s[..i] + [a[i], a[i + 1]];
      DecodePairsAppend(s[..i], [a[i], a[i + 1]]);
      assert DecodePairs([a[i], a[i + 1]]) == [PairOctet(a[i], a[i + 1])];
      chrs[j] := (HexVal(a[i]) * 16 + HexVal(a[i + 1])) % 256;
      i, j := i + 2, j + 1;
    }
    assert s[..i] == s;
    chrs[n] := 0;
  }

  // ----- the grammar

  predicate IsHexDigit(c: char) {
    '0' <= c <= '9' || 'a' <= c <= 'f' || 'A' <= c <= 'F'
  }

  function DigitValue(c: char): (d: nat)
    requires IsHexDigit(c)
    ensures d < 16
  {
    if '0' <= c <= '9' then c as int - '0' as int
    else if 'a' <= c <= 'f' then 10 + (c as int - 'a' as int)
    else 10 + (c as int - 'A' as int)
  }

  /** ([0-9a-fA-F]{2}(:[0-9a-fA-F]{2})*)? */
  predicate HexString(s: string) {
    s == "" ||
    (&& |s| >= 2 && IsHexDigit(s[0]) && IsHexDigit(s[1])
     && (|s| == 2 || (|s| > 3 && s[2] == ':' && HexString(s[3..]))))
  }

  function Denoted(s: string): seq<byte>
    requires HexString(s)
  {
    if s == "" then []
    else
      [16 * DigitValue(s[0]) + DigitValue(s[1])] + (if |s| == 2 then [] else Denoted(s[3..]))
  }

  /** The digits in their order, in either case. */
  lemma HexDigitsInOrder()
    ensures HexVal('0') == 0 && HexVal('1') == 1 && HexVal('2') == 2 && HexVal('3') == 3 && HexVal('4') == 4
    ensures HexVal('5') == 5 && HexVal('6') == 6 && HexVal('7') == 7 && HexVal('8') == 8 && HexVal('9') == 9
    ensures HexVal('a') == HexVal('A') == 10 && HexVal('b') == HexVal('B') == 11 && HexVal('c') == HexVal('C') == 12
    ensures HexVal('d') == HexVal('D') == 13 && HexVal('e') == HexVal('E') == 14 && HexVal('f') == HexVal('F') == 15
  {
  }

  /** The arithmetic of the source is the digit value, for either case. */
  lemma HexValIsDigitValue(c: char)
    requires IsHexDigit(c)
    ensures HexVal(c) == DigitValue(c)
  {
  }

  /** What follows the first octet and its colon. */
  function Rest(s: string): (r: string)
    requires HexString(s) && s != ""
    ensures HexString(r) && |r| < |s| && (r == "" || |r| >= 2)
    ensures |s| == if r == "" then 2 else 3 + |r|
  {
    if |s| == 2 then "" else s[3..]
  }

  lemma DenotedUnfolds(s: string)
    requires HexString(s) && s != ""
    ensures Denoted(s) == [16 * DigitValue(s[0]) + DigitValue(s[1])] + Denoted(Rest(s))
  {
  }

  function Tail(s: string): string
    requires HexString(s) && s != ""
  {
    if Rest(s) == "" then "" else ":" + Rest(s)
  }

  lemma Shape(s: string)
    requires HexString(s) && s != ""
    ensures IsHexDigit(s[0]) && IsHexDigit(s[1]) && s == [s[0]] + ([s[1]] + Tail(s))
  {
    if |s| > 2 {
      assert s[2] == ':' && Tail(s) == [':'] + s[3..];
      Triple(s);
    }
  }

  lemma Triple(s: string)
    requires |s| >= 3
    ensures s == [s[0]] + ([s[1]] + ([s[2]] + s[3..]))
  {
  }

  lemma WithoutCons(x: char, t: string, c: char)
    ensures Without([x] + t, c) == (if x == c then "" else [x]) + Without(t, c)
  {
    assert ([x] + t)[1..] == t;
  }

  lemma TailFiltered(s: string)
    requires HexString(s) && s != ""
    ensures Without(Tail(s), ':') == Without(Rest(s), ':')
  {
    hide Without, Rest, HexString;
    EmptyText();
    WithoutCons(':', Rest(s), ':');
    assert ":" + Rest(s) == [':'] + Rest(s);
  }

  lemma DigitsStay(x: char, y: char, t: string)
    requires x != ':' && y != ':'
    ensures Without([x] + ([y] + t), ':') == [x, y] + Without(t, ':')
  {
    hide Without;
    WithoutCons(x, [y] + t, ':');
    WithoutCons(y, t, ':');
  }

  lemma WithoutUnfolds(s: string)
    requires HexString(s) && s != ""
    ensures Without(s, ':') == [s[0], s[1]] + Without(Rest(s), ':')
  {
    hide Without, HexString, Rest, Tail;
    Shape(s);
    DigitsStay(s[0], s[1], Tail(s));
    TailFiltered(s);
  }

  /** Filtering and decoding a hex-string gives the octets it denotes: (n + 1) / 3 of them. */
  lemma {:induction false} DecodesGrammar(s: string)
    requires HexString(s)
    ensures |Without(s, ':')| % 2 == 0
    ensures DecodePairs(Without(s, ':')) == Denoted(s)
    ensures |Denoted(s)| == (|s| + 1) / 3
    decreases |s|
  {
    hide HexVal, DigitValue, Without, Denoted;
    if s == "" {
      EmptyText();
    } else {
      var pair := [s[0], s[1]];
      DecodesGrammar(Rest(s));
      PairOctetIsValue(s[0], s[1]);
      DenotedUnfolds(s);
      WithoutUnfolds(s);
      assert (pair + Without(Rest(s), ':'))[2..] == Without(Rest(s), ':');
    }
  }

  lemma EmptyText()
    ensures Without("", ':') == "" && Denoted("") == []
  {
  }

  lemma PairOctetIsValue(hi: char, lo: char)
    requires IsHexDigit(hi) && IsHexDigit(lo)
    ensures PairOctet(hi, lo) == 16 * DigitValue(hi) + DigitValue(lo)
  {
    hide HexVal;
    HexValIsDigitValue(hi);
    HexValIsDigitValue(lo);
  }

  function HexDigit(n: nat): (c: char)
    requires n < 16
    ensures IsHexDigit(c) && DigitValue(c) == n
  {
    if n < 10 then ('0' as int + n) as char else ('a' as int + (n - 10)) as char
  }

  /** Canonical text: lower case, colons between octets. */
  function Canonical(bs: seq<byte>): string {
    if bs == [] then ""
    else
      [HexDigit(bs[0] / 16), HexDigit(bs[0] % 16)] + (if |bs| == 1 then "" else ":" + Canonical(bs[1..]))
  }

  /** Printing octets with colons and decoding again is the identity. */
  lemma {:induction false} CanonicalRoundTrip(bs: seq<byte>)
    ensures HexString(Canonical(bs)) && Denoted(Canonical(bs)) == bs
    ensures DecodePairs(Without(Canonical(bs), ':')) == bs
  {
    var s := Canonical(bs);
    if |bs| == 1 {
      assert bs == [bs[0]];
    } else if |bs| > 1 {
      CanonicalRoundTrip(bs[1..]);
      assert s[3..] == Canonical(bs[1..]) != "";
      assert bs == [bs[0]] + bs[1..];
    }
    DecodesGrammar(s);
  }

  function Lower(s: string): string {
    if s == "" then ""
    else [if 'A' <= s[0] <= 'F' then (s[0] as int + 32) as char else s[0]] + Lower(s[1..])
  }

  lemma LowerCons(x: char, t: string)
    ensures Lower([x] + t) == [if 'A' <= x <= 'F' then (x as int + 32) as char else x] + Lower(t)
  {
    assert ([x] + t)[1..] == t;
  }

  lemma LowerDigit(c: char, t: string)
    requires IsHexDigit(c)
    ensures Lower([c] + t) == [HexDigit(DigitValue(c))] + Lower(t)
  {
    LowerCons(c, t);
  }

  lemma LowerTail(s: string)
    requires HexString(s) && s != ""
    ensures Lower(Tail(s)) == if Rest(s) == "" then "" else ":" + Lower(Rest(s))
  {
    LowerCons(':', Rest(s));
  }

  lemma CanonicalCons(b: byte, bs: seq<byte>)
    ensures Canonical([b] + bs) == [HexDigit(b / 16), HexDigit(b % 16)] + (if bs == [] then "" else ":" + Canonical(bs))
  {
    assert ([b] + bs)[1..] == bs;
  }

  lemma LowerUnfolds(s: string)
    requires HexString(s) && s != ""
    ensures IsHexDigit(s[0]) && IsHexDigit(s[1])
    ensures Lower(s) ==
            [HexDigit(DigitValue(s[0])), HexDigit(DigitValue(s[1]))]
            + (if Rest(s) == "" then "" else ":" + Lower(Rest(s)))
  {
    hide Lower, HexDigit, HexString, IsHexDigit, DigitValue, Rest, Tail;
    Shape(s);
    LowerTail(s);
    LowerDigit(s[0], [s[1]] + Tail(s));
    LowerDigit(s[1], Tail(s));
    Pairs(HexDigit(DigitValue(s[0])), HexDigit(DigitValue(s[1])), Lower(Tail(s)));
  }

  lemma CanonicalUnfolds(s: string)
    requires HexString(s) && s != ""
    ensures IsHexDigit(s[0]) && IsHexDigit(s[1])
    ensures Canonical(Denoted(s)) ==
            [HexDigit(DigitValue(s[0])), HexDigit(DigitValue(s[1]))]
            + (if Rest(s) == "" then "" else ":" + Canonical(Denoted(Rest(s))))
  {
    hide Denoted, Canonical, HexDigit, HexString, Rest;
    Shape(s);
    DenotedUnfolds(s);
    var hi, lo := DigitValue(s[0]), DigitValue(s[1]);
    SplitOctet(hi, lo);
    CanonicalCons(16 * hi + lo, Denoted(Rest(s)));
    DecodesGrammar(Rest(s));
    EmptyText();
  }

  /** Decoding loses nothing but the case of the digits. */
  lemma {:induction false} DecodeThenPrint(s: string)
    requires HexString(s)
    ensures Canonical(Denoted(s)) == Lower(s)
    decreases |s|
  {
    if s != "" {
      hide Denoted, Canonical, Lower, HexDigit, HexString, Rest;
      DecodeThenPrint(Rest(s));
      CanonicalUnfolds(s);
      LowerUnfolds(s);
    }
  }

  lemma SplitOctet(hi: nat, lo: nat)
    requires lo < 16
    ensures (16 * hi + lo) / 16 == hi && (16 * hi + lo) % 16 == lo
  {
  }

  lemma Pairs(x: char, y: char, t: string)
    ensures [x] + ([y] + t) == [x, y] + t
  {
  }
}
