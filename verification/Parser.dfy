/**
 The checked parser. A message is accepted exactly when its body tiles into known
 extensions without a repeated type; the table then locates every extension.
 */
module Parser {
  import opened Bytes
  import opened Wire

  /** Why the loop of `ParseMessage` stops at word w before the end. */
  ghost predicate Stuck(m: seq<byte>, w: nat, n: nat, run: seq<nat>)
    requires w < n && 8 * n <= |m|
  {
    || ExtWords(m, w) < 1
    || ExtWords(m, w) > n - w
    || ExtType(m, w) > SADB_EXT_MAX
    || ExtType(m, w) == 0
    || exists i :: 0 <= i < |run| && run[i] < n && ExtType(m, run[i]) == ExtType(m, w)
  }

  /** The longest run of acceptable extensions from the front of the body. */
  ghost predicate LongestRun(m: seq<byte>, run: seq<nat>, w: nat)
    requires Framed(m)
  {
    var n := MsgWords(m);
    && w <= n
    && Tiles(m, HEADER_WORDS, w, run)
    && Typed(m, w, run)
    && (w < n ==> Stuck(m, w, n, run))
  }

  ghost predicate TableOf(m: seq<byte>, n: nat, run: seq<nat>, table: seq<nat>) {
    && 8 * n <= |m|
    && (forall i | 0 <= i < |run| :: run[i] < n)
    && |table| == SADB_EXT_MAX + 1
    && forall t | 0 <= t < |table| :: table[t] == Slot(m, n, run, t)
  }

  /** The parser stands at word w, with the run and the table so far. */
  ghost predicate Parsing(m: seq<byte>, w: nat, run: seq<nat>, table: seq<nat>)
    requires Framed(m)
  {
    && w <= MsgWords(m)
    && Tiles(m, HEADER_WORDS, w, run) && Typed(m, w, run) && TableOf(m, MsgWords(m), run, table)
  }

  lemma NothingParsed(m: seq<byte>, table: seq<nat>)
    requires Framed(m) && |table| == SADB_EXT_MAX + 1 && forall t | 0 <= t < |table| :: table[t] == 0
    ensures Parsing(m, HEADER_WORDS, [], table)
  {
  }

  /** A slot is free exactly when no extension of the run has its type. */
  lemma FreeSlot(m: seq<byte>, w: nat, run: seq<nat>, table: seq<nat>, ty: nat)
    requires Framed(m) && Parsing(m, w, run, table) && ty <= SADB_EXT_MAX
    ensures table[ty] != 0 <==> exists i :: 0 <= i < |run| && run[i] < MsgWords(m) && ExtType(m, run[i]) == ty
  {
    hide FromLe, Slot;
    TilesBounds(m, HEADER_WORDS, w, run);
    SlotCharacterised(m, w, run, ty);
    SlotBound(m, w, MsgWords(m), run, ty);
  }

  /** An acceptable extension of a new type is added to the run, and takes its slot. */
  lemma Accept(m: seq<byte>, w: nat, run: seq<nat>, table: seq<nat>)
    requires Framed(m) && Parsing(m, w, run, table) && w < MsgWords(m)
    requires 1 <= ExtWords(m, w) <= MsgWords(m) - w && 1 <= ExtType(m, w) <= SADB_EXT_MAX
    requires table[ExtType(m, w)] == 0
    ensures Parsing(m, w + ExtWords(m, w), run + [w], table[ExtType(m, w) := 8 * w])
  {
    hide FromLe, Slot;
    var n, ty := MsgWords(m), ExtType(m, w);
    TilesBounds(m, HEADER_WORDS, w, run);
    FreeSlot(m, w, run, table, ty);
    TilesAppend(m, HEADER_WORDS, w, run, w + ExtWords(m, w));
    forall t | 0 <= t < |table|
      ensures table[ty := 8 * w][t] == Slot(m, n, run + [w], t)
    {
      SlotAppend(m, n, run, w, t);
    }
  }

  /**
   `out[t]` is the offset of the extension of type t, or 0 for the null reference the
   source stores. The caller owes a framed message: fewer than two words make the source's
   unsigned subtraction wrap.
   */
  method ParseMessage(m: seq<byte>, out: array<nat>) returns (rc: int, ghost run: seq<nat>, ghost w: nat)
    requires Framed(m) && out.Length == SADB_EXT_MAX + 1
    modifies out
    ensures LongestRun(m, run, w) && TableOf(m, MsgWords(m), run, out[..])
    ensures rc == if w == MsgWords(m) then 0 else 1
    ensures rc == 0 <==> exists exts :: WellFormed(m, exts)
    ensures rc == 0 ==> WellFormed(m, run)
  {
    for t := 0 to out.Length
      invariant forall u | 0 <= u < t :: out[u] == 0
    {
      out[t] := 0;
    }
    hide Slot, FromLe, Tiles, Typed;
    ghost var n := MsgWords(m);
    var len := MsgWords(m) - HEADER_WORDS;
    var ext: nat := 8 * HEADER_WORDS;
    run, w := [], HEADER_WORDS;
    NothingParsed(m, out[..]);
    while len >= 1
      invariant ext == 8 * w && len == n - w
      invariant Parsing(m, w, run, out[..])
    {
      if U16At(m, ext) < 1 || U16At(m, ext) > len {
        break;
      }
      var ty := U16At(m, ext + 2);
      if ty > SADB_EXT_MAX || ty == 0 {
        break;
      }
      FreeSlot(m, w, run, out[..], ty);
      if out[ty] != 0 {
        break;
      }
      Accept(m, w, run, out[..]);
      ghost var was := out[..];
      out[ty] := ext;
      assert out[..] == was[ty := ext];
      len := len - U16At(m, ext);
      run, w, ext := run + [w], w + ExtWords(m, w), ext + 8 * U16At(m, ext);
    }
    StuckIsFinal(m, run, w);
    rc := if len != 0 then 1 else 0;
  }

  /** The bound under which a slot is looked up does not matter. */
  lemma {:induction false} SlotBound(m: seq<byte>, b: nat, c: nat, exts: seq<nat>, t: nat)
    requires b <= c && 8 * c <= |m|
    requires forall i | 0 <= i < |exts| :: exts[i] < b
    ensures Slot(m, b, exts, t) == Slot(m, c, exts, t)
    decreases |exts|
  {
    if exts != [] {
      SlotBound(m, b, c, exts[1..], t);
    }
  }

  /** Inside an acceptable message the parser always finds one more acceptable extension. */
  lemma NotStuckInside(m: seq<byte>, run: seq<nat>, w: nat, exts: seq<nat>)
    requires WellFormed(m, exts) && w < MsgWords(m) && Tiles(m, HEADER_WORDS, w, run)
    ensures !Stuck(m, w, MsgWords(m), run)
  {
    TilesPrefix(m, HEADER_WORDS, w, run, MsgWords(m), exts);
    assert exts[|run|..] != [] && exts[|run|] == exts[|run|..][0] == w;
    assert forall i | 0 <= i < |run| :: run[i] == exts[i];
  }

  /** Stopping early is right: no other way of cutting the message would be accepted. */
  lemma StuckIsFinal(m: seq<byte>, run: seq<nat>, w: nat)
    requires Framed(m) && LongestRun(m, run, w)
    ensures w == MsgWords(m) <==> exists exts :: WellFormed(m, exts)
    ensures w == MsgWords(m) ==> WellFormed(m, run)
  {
    var n := MsgWords(m);
    if w == n {
      assert WellFormed(m, run);
    } else if exts :| WellFormed(m, exts) {
      NotStuckInside(m, run, w, exts);
      assert false;
    }
  }

  /** Acceptance and the cuts depend on the announced octets only, not on what follows them. */
  lemma {:induction false} ParseIsLocal(m: seq<byte>, tail: seq<byte>, exts: seq<nat>)
    requires Framed(m)
    ensures Framed(m + tail)
    ensures WellFormed(m, exts) <==> WellFormed(m + tail, exts)
  {
    assert (m + tail)[4..6] == m[4..6];
    var n := MsgWords(m);
    TilesLocal(m, tail, HEADER_WORDS, n, exts);
    forall w: nat | 8 * w + 8 <= |m|
      ensures ExtType(m + tail, w) == ExtType(m, w)
    {
      assert (m + tail)[8 * w + 2..8 * w + 4] == m[8 * w + 2..8 * w + 4];
    }
  }

  lemma {:induction false} TilesLocal(m: seq<byte>, tail: seq<byte>, a: nat, b: nat, exts: seq<nat>)
    requires 8 * b <= |m|
    ensures Tiles(m, a, b, exts) <==> Tiles(m + tail, a, b, exts)
    decreases |exts|
  {
    if exts != [] && a < b {
      assert (m + tail)[8 * a..8 * a + 2] == m[8 * a..8 * a + 2];
      TilesLocal(m, tail, a + ExtWords(m, a), b, exts[1..]);
    }
  }
}
