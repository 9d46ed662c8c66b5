/**
 C text: decimal and dotted-quad printing, and the address/prefix splitting that the
 builders apply to configured subnets.
 */
module Text {
  import opened Bytes

  datatype Option<+T> = None | Some(value: T)

  // ----- decimal numbers

  function Decimal(n: nat): (s: string)
    ensures |s| >= 1 && forall k | 0 <= k < |s| :: IsDigit(s[k])
    decreases n
  {
    if n < 10 then [Digit(n)] else Decimal(n / 10) + [Digit(n % 10)]
  }

  function Digit(d: nat): (c: char)
    requires d < 10
    ensures IsDigit(c) && DigitValue(c) == d
  {
    (d + 48) as char
  }

  lemma DigitsAreText(d: nat)
    requires d < 10
    ensures Digit(d) == "0123456789"[d]
  {
  }

  predicate IsDigit(c: char) {
    '0' <= c <= '9'
  }

  function DigitValue(c: char): nat
    requires IsDigit(c)
  {
    (c as int) - 48
  }

  /** The value of the longest digit run at the front of s, appended to `acc`. */
  function DigitRun(s: string, acc: nat): nat {
    if s == "" || !IsDigit(s[0]) then acc else DigitRun(s[1..], 10 * acc + DigitValue(s[0]))
  }

  lemma {:induction false} DigitRunSplits(s: string, t: string, acc: nat)
    requires forall k | 0 <= k < |s| :: IsDigit(s[k])
    ensures DigitRun(s + t, acc) == DigitRun(t, DigitRun(s, acc))
    decreases |s|
  {
    if s == "" {
      assert s + t == t;
    } else {
      DigitRunSplits(s[1..], t, 10 * acc + DigitValue(s[0]));
      assert (s + t)[1..] == s[1..] + t;
    }
  }

  lemma {:induction false} DecimalReads(n: nat, t: string)
    requires t == "" || !IsDigit(t[0])
    ensures DigitRun(Decimal(n) + t, 0) == n
  {
    if n >= 10 {
      var d := [Digit(n % 10)];
      DecimalReads(n / 10, "");
      assert Decimal(n / 10) + "" == Decimal(n / 10);
      DigitRunSplits(Decimal(n / 10), d, 0);
      assert d[1..] == "";
      DigitRunSplits(Decimal(n), t, 0);
    } else {
      assert (Decimal(n) + t)[1..] == t;
    }
  }

  lemma DecimalInjective(a: nat, b: nat)
    requires Decimal(a) == Decimal(b)
    ensures a == b
  {
    DecimalReads(a, "");
    DecimalReads(b, "");
    assert Decimal(a) + "" == Decimal(b) + "";
  }

  // ----- atoi, and strtok on '/'

  function Atoi(s: string): int {
    if s == "" then 0
    else if s[0] == ' ' || '\t' <= s[0] <= '\r' then Atoi(s[1..])
    else if s[0] == '-' then 0 - DigitRun(s[1..], 0)
    else if s[0] == '+' then DigitRun(s[1..], 0)
    else DigitRun(s, 0)
  }

  function SkipSlashes(s: string): string {
    if s != "" && s[0] == '/' then SkipSlashes(s[1..]) else s
  }

  function UpToSlash(s: string): (t: string)
    ensures |t| <= |s| && t == s[..|t|]
  {
    if s == "" || s[0] == '/' then "" else [s[0]] + UpToSlash(s[1..])
  }

  /** First token of a subnet text; None where the source gets a null result. */
  function GetIp(subnet: string): Option<string> {
    var s := SkipSlashes(subnet);
    if s == "" then None else Some(UpToSlash(s))
  }

  /** Second token read as a number; None where the source would convert a null result. */
  function GetMask(subnet: string): Option<int> {
    var s := SkipSlashes(subnet);
    var t := SkipSlashes(s[|UpToSlash(s)|..]);
    if t == "" then None else Some(Atoi(UpToSlash(t)))
  }

  lemma {:induction false} UpToSlashStops(s: string, t: string)
    requires '/' !in s && (t == "" || t[0] == '/')
    ensures UpToSlash(s + t) == s
    decreases |s|
  {
    if s == "" {
      assert s + t == t;
    } else {
      UpToSlashStops(s[1..], t);
      assert (s + t)[1..] == s[1..] + t;
    }
  }

  /** Splitting undoes the address/length notation for every address text and length. */
  lemma SubnetSplits(ip: string, bits: nat)
    requires ip != "" && '/' !in ip
    ensures GetIp(ip + "/" + Decimal(bits)) == Some(ip)
    ensures GetMask(ip + "/" + Decimal(bits)) == Some(bits)
  {
    var d, s := Decimal(bits), ip + "/" + Decimal(bits);
    assert s == ip + ("/" + d) && s[0] != '/';
    UpToSlashStops(ip, "/" + d);
    assert s[|ip|..] == "/" + d && ("/" + d)[1..] == d;
    assert SkipSlashes("/" + d) == d;
    UpToSlashStops(d, "");
    assert d + "" == d;
    DecimalReads(bits, "");
  }

  predicate AllSlashes(s: string) {
    forall k | 0 <= k < |s| :: s[k] == '/'
  }

  lemma {:induction false} SkipsAll(s: string, t: string)
    requires AllSlashes(s) && (t == "" || t[0] != '/')
    ensures SkipSlashes(s + t) == t
    decreases |s|
  {
    if s == "" {
      assert s + t == t;
    } else {
      assert (s + t)[1..] == s[1..] + t;
      SkipsAll(s[1..], t);
    }
  }

  /**
   Any number of slashes may stand in front of the address and between address and length, and
   what follows the length after another one is ignored.
   */
  lemma LooseSubnetSplits(front: string, ip: string, between: string, mask: string, rest: string)
    requires AllSlashes(front) && AllSlashes(between) && between != ""
    requires ip != "" && mask != "" && '/' !in ip && '/' !in mask && (rest == "" || rest[0] == '/')
    ensures GetIp(front + (ip + (between + (mask + rest)))) == Some(ip)
    ensures GetMask(front + (ip + (between + (mask + rest)))) == Some(Atoi(mask))
  {
    var tail := between + (mask + rest);
    assert (ip + tail)[0] == ip[0] && tail[0] == '/' && (mask + rest)[0] == mask[0];
    SkipsAll(front, ip + tail);
    UpToSlashStops(ip, tail);
    assert (ip + tail)[|ip|..] == tail;
    SkipsAll(between, mask + rest);
    UpToSlashStops(mask, rest);
  }

  /** Without an address nothing is found, and without a length there is no second token. */
  lemma IncompleteSubnets(front: string, ip: string, behind: string)
    requires AllSlashes(front) && AllSlashes(behind) && ip != "" && '/' !in ip
    ensures GetIp(front) == None && GetMask(front) == None
    ensures GetIp(front + (ip + behind)) == Some(ip) && GetMask(front + (ip + behind)) == None
  {
    SkipsAll(front, "");
    assert front + "" == front && behind + "" == behind;
    assert (ip + behind)[0] == ip[0];
    SkipsAll(front, ip + behind);
    UpToSlashStops(ip, behind);
    assert (ip + behind)[|ip|..] == behind;
    SkipsAll(behind, "");
    assert UpToSlash("") == "" && SkipSlashes("") == "";
  }

  predicate IsBlank(c: char) {
    c in " \t\n\r" || c as int == 11 || c as int == 12
  }

  lemma {:induction false} SkipsBlanks(blanks: string, s: string)
    requires forall k | 0 <= k < |blanks| :: IsBlank(blanks[k])
    ensures Atoi(blanks + s) == Atoi(s)
    decreases |blanks|
  {
    if blanks == "" {
      assert blanks + s == s;
    } else {
      assert (blanks + s)[1..] == blanks[1..] + s;
      SkipsBlanks(blanks[1..], s);
    }
  }

  lemma SignedRun(s: string)
    requires s != "" && IsDigit(s[0])
    ensures Atoi(s) == DigitRun(s, 0) && Atoi("-" + s) == 0 - DigitRun(s, 0) && Atoi("+" + s) == DigitRun(s, 0)
  {
    hide DigitRun;
    assert ("-" + s)[1..] == s && ("+" + s)[1..] == s;
  }

  /** atoi: blanks, an optional sign, the digits, and whatever follows them is ignored. */
  lemma AtoiReads(blanks: string, n: nat, t: string)
    requires forall k | 0 <= k < |blanks| :: IsBlank(blanks[k])
    requires t == "" || !IsDigit(t[0])
    ensures Atoi(blanks + (Decimal(n) + t)) == n
    ensures Atoi(blanks + ("-" + (Decimal(n) + t))) == 0 - n
    ensures Atoi(blanks + ("+" + (Decimal(n) + t))) == n
  {
    hide Decimal, Atoi, DigitRun;
    var s := Decimal(n) + t;
    DecimalReads(n, t);
    assert s[0] == Decimal(n)[0];
    SignedRun(s);
    SkipsBlanks(blanks, s);
    SkipsBlanks(blanks, "-" + s);
    SkipsBlanks(blanks, "+" + s);
  }

  // ----- paths

  /** strrchr on '/': the text from the last slash on; empty when there is none. */
  function LastSegment(s: string): string {
    if s == "" then ""
    else if LastSegment(s[1..]) != "" then LastSegment(s[1..])
    else if s[0] == '/' then s
    else ""
  }

  /** strstr, as a test. */
  predicate Contains(s: string, part: string) {
    part <= s || (s != "" && Contains(s[1..], part))
  }

  // ----- dotted quads

  type Quad = b: seq<byte> | |b| == 4 witness [0, 0, 0, 0]

  function Dotted(a: Quad): string {
    Decimal(a[0]) + "." + (Decimal(a[1]) + "." + (Decimal(a[2]) + "." + Decimal(a[3])))
  }

  /** Text of an IPv4 socket address: the port is appended only when it is not zero. */
  function SockText(a: Quad, port: nat): string {
    Dotted(a) + (if port == 0 then "" else "." + Decimal(port))
  }

  function DotAt(s: string): nat {
    if s == "" || s[0] == '.' then 0 else 1 + DotAt(s[1..])
  }

  lemma {:induction false} DotAfter(x: string, s: string)
    requires '.' !in x
    ensures DotAt(x + "." + s) == |x|
    decreases |x|
  {
    if x != "" {
      DotAfter(x[1..], s);
      assert (x + "." + s)[1..] == x[1..] + "." + s;
    }
  }

  lemma FirstDot(x: string, s: string, y: string, t: string)
    requires '.' !in x && '.' !in y
    requires x + "." + s == y + "." + t
    ensures x == y && s == t
  {
    DotAfter(x, s);
    DotAfter(y, t);
    assert (x + "." + s)[..|x|] == x && (y + "." + t)[..|y|] == y;
    assert (x + "." + s)[|x| + 1..] == s && (y + "." + t)[|y| + 1..] == t;
  }

  lemma NoDot(n: nat)
    ensures '.' !in Decimal(n)
  {
  }

  function BehindDot(s: string): string {
    if DotAt(s) < |s| then s[DotAt(s) + 1..] else ""
  }

  /** The numbers between the dots. */
  function FieldOf(s: string, k: nat): nat
    decreases k
  {
    if k == 0 then DigitRun(s, 0) else FieldOf(BehindDot(s), k - 1)
  }

  lemma FieldUnfolds(x: nat, s: string)
    ensures FieldOf(Decimal(x) + "." + s, 0) == x && BehindDot(Decimal(x) + "." + s) == s
  {
    hide Decimal;
    var t := Decimal(x) + "." + s;
    NoDot(x);
    DotAfter(Decimal(x), s);
    DecimalReads(x, "." + s);
    assert t == Decimal(x) + ("." + s);
  }

  /** The octets of an address are printed in order; the port comes last, unless it is 0. */
  lemma SockTextReads(a: Quad, port: nat)
    ensures forall k | 0 <= k < 4 :: FieldOf(SockText(a, port), k) == a[k]
    ensures if port == 0 then SockText(a, port) == Dotted(a) else FieldOf(SockText(a, port), 4) == port
  {
    hide Decimal, FieldOf;
    var tail := if port == 0 then "" else "." + Decimal(port);
    QuadReads(a, tail);
    Nested(a, tail);
    if port != 0 {
      LastReads(a[3], port);
    }
  }

  lemma Nested(a: Quad, tail: string)
    ensures Dotted(a) + tail ==
            Decimal(a[0]) + "." + (Decimal(a[1]) + "." + (Decimal(a[2]) + "." + (Decimal(a[3]) + tail)))
    ensures Dotted(a) + "" == Dotted(a)
  {
    hide Decimal;
  }

  lemma LastReads(x: nat, port: nat)
    ensures FieldOf(Decimal(x) + ("." + Decimal(port)), 1) == port
  {
    hide Decimal;
    assert Decimal(x) + ("." + Decimal(port)) == Decimal(x) + "." + Decimal(port);
    FieldUnfolds(x, Decimal(port));
    DecimalReads(port, "");
    assert Decimal(port) + "" == Decimal(port);
  }

  lemma QuadReads(a: Quad, tail: string)
    requires tail == "" || tail[0] == '.'
    ensures var s3 := Decimal(a[3]) + tail;
            var s2 := Decimal(a[2]) + "." + s3;
            var s1 := Decimal(a[1]) + "." + s2;
            var s := Decimal(a[0]) + "." + s1;
            && FieldOf(s, 0) == a[0] && FieldOf(s, 1) == a[1] && FieldOf(s, 2) == a[2] && FieldOf(s, 3) == a[3]
            && FieldOf(s, 4) == FieldOf(s3, 1)
  {
    hide Decimal;
    var s3 := Decimal(a[3]) + tail;
    var s2 := Decimal(a[2]) + "." + s3;
    var s1 := Decimal(a[1]) + "." + s2;
    FieldUnfolds(a[0], s1);
    FieldUnfolds(a[1], s2);
    FieldUnfolds(a[2], s3);
    DecimalReads(a[3], tail);
    var s := Decimal(a[0]) + "." + s1;
    assert FieldOf(s, 4) == FieldOf(s1, 3) == FieldOf(s2, 2) == FieldOf(s3, 1);
    assert FieldOf(s, 3) == FieldOf(s1, 2) == FieldOf(s2, 1) == FieldOf(s3, 0);
    assert FieldOf(s, 2) == FieldOf(s1, 1) == FieldOf(s2, 0);
  }

  /** A socket text equals a bare address text only for that address and port zero. */
  lemma SockTextDetermines(a: Quad, port: nat, b: Quad)
    requires SockText(a, port) == Dotted(b)
    ensures a == b && port == 0
  {
    var tail := if port == 0 then "" else "." + Decimal(port);
    var a3 := Decimal(a[3]) + tail;
    var a2, b2 := Decimal(a[2]) + "." + a3, Decimal(b[2]) + "." + Decimal(b[3]);
    var a1, b1 := Decimal(a[1]) + "." + a2, Decimal(b[1]) + "." + b2;
    assert SockText(a, port) == Decimal(a[0]) + "." + a1;
    forall n: nat ensures '.' !in Decimal(n) { NoDot(n); }
    assert port != 0 ==> a3[|Decimal(a[3])|] == '.';
    FirstDot(Decimal(a[0]), a1, Decimal(b[0]), b1);
    FirstDot(Decimal(a[1]), a2, Decimal(b[1]), b2);
    FirstDot(Decimal(a[2]), a3, Decimal(b[2]), Decimal(b[3]));
    assert port == 0;
    assert a3 == Decimal(a[3]);
    DecimalInjective(a[0], b[0]);
    DecimalInjective(a[1], b[1]);
    DecimalInjective(a[2], b[2]);
    DecimalInjective(a[3], b[3]);
  }
}
