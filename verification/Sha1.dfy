/** The streaming SHA-1 of the relay client: context, in-place block schedule, unrolled rounds
    and byte-wise padding, proved against the definition in Fips180. */
module Sha1 {
  import opened Fips180

  /** The byte swap of a little-endian load. */
  function Swap(x: Word): Word {
    (((x << 24) | (x >> 8)) & 0xFF00FF00) | (((x << 8) | (x >> 24)) & 0x00FF00FF)
  }

  function LittleEndian(b0: Octet, b1: Octet, b2: Octet, b3: Octet): Word {
    b0 as bv32 | (b1 as bv32 << 8) | (b2 as bv32 << 16) | (b3 as bv32 << 24)
  }

  lemma {:induction false} SwapIsBigEndian(b0: Octet, b1: Octet, b2: Octet, b3: Octet)
    ensures Swap(LittleEndian(b0, b1, b2, b3)) == BigEndian(b0, b1, b2, b3)
  {
  }

  lemma {:induction false} ChForm(w: Word, x: Word, y: Word)
    ensures (w & (x ^ y)) ^ y == Ch(w, x, y)
  {
  }

  lemma {:induction false} MajForm(w: Word, x: Word, y: Word)
    ensures ((w | x) & y) | (w & x) == Maj(w, x, y)
  {
  }

  // ---- one block ----

  /** One block seen from the definition: the 80 schedule words, and what the 16 words of
      the block and the five registers must hold before and after each round. */
  datatype Trace = Trace(w: seq<Word>, b: seq<seq<Word>>, r: seq<Hash>)

  /** Round `t` takes word t from the window before it, and puts it at t modulo 16. */
  ghost predicate BlockStep(g: Trace, t: nat)
    requires |g.w| == 80 && |g.b| == 81 && t < 80
  {
    && |g.b[t]| == 16
    && g.b[t + 1] == g.b[t][t % 16 := g.w[t]]
    && g.w[t] == if t < 16 then Swap(g.b[t][t])
                 else Expand(g.b[t][(t + 13) % 16], g.b[t][(t + 8) % 16], g.b[t][(t + 2) % 16], g.b[t][t % 16])
  }

  ghost predicate RoundStep(g: Trace, t: nat)
    requires |g.w| == 80 && |g.r| == 81 && t < 80
  {
    g.r[t + 1] == Round(g.r[t], t, g.w[t])
  }

  ghost predicate IsTrace(g: Trace) {
    && |g.w| == 80 && |g.b| == 81 && |g.r| == 81
    && forall t :: 0 <= t < 80 ==> BlockStep(g, t) && RoundStep(g, t)
  }

  /** The block's content before round `t`. */
  ghost function Snapshot(raw: seq<Word>, m: seq<Word>, t: nat): (s: seq<Word>)
    requires |raw| == 16 && |m| == 16
    ensures |s| == 16
    decreases |raw|, t
  {
    if t == 0 then raw else Snapshot(raw, m, t - 1)[(t - 1) % 16 := W(m, t - 1)]
  }

  /** A word not yet swapped is still as it was loaded. */
  lemma {:induction false} LoadedIsThere(raw: seq<Word>, m: seq<Word>, t: nat, k: nat)
    requires |raw| == 16 && |m| == 16 && t <= k < 16
    ensures Snapshot(raw, m, t)[k] == raw[k]
    decreases t
  {
    if t > 0 {
      LoadedIsThere(raw, m, t - 1, k);
    }
  }

  /** Why 16 words are enough: word k of the schedule stays at place k modulo 16 until
      round k + 16. */
  lemma {:induction false} WordIsThere(raw: seq<Word>, m: seq<Word>, t: nat, k: nat)
    requires |raw| == 16 && |m| == 16 && k < t <= k + 16
    ensures Snapshot(raw, m, t)[k % 16] == W(m, k)
    decreases t
  {
    if k < t - 1 {
      assert (t - 1) % 16 != k % 16;
      WordIsThere(raw, m, t - 1, k);
    }
  }

  /** The in-place recurrence is the definition's. */
  lemma {:induction false} NextWord(raw: seq<Word>, m: seq<Word>, t: nat)
    requires |raw| == 16 && |m| == 16 && t >= 16
    ensures var s := Snapshot(raw, m, t);
            W(m, t) == Expand(s[(t + 13) % 16], s[(t + 8) % 16], s[(t + 2) % 16], s[t % 16])
  {
    OldWord(raw, m, t, 3);
    OldWord(raw, m, t, 8);
    OldWord(raw, m, t, 14);
    OldWord(raw, m, t, 16);
  }

  lemma {:induction false} OldWord(raw: seq<Word>, m: seq<Word>, t: nat, back: nat)
    requires |raw| == 16 && |m| == 16 && t >= 16 && 1 <= back <= 16
    ensures Snapshot(raw, m, t)[(t + (16 - back)) % 16] == W(m, t - back)
  {
    assert (t - back) % 16 == (t + (16 - back)) % 16;
    WordIsThere(raw, m, t, t - back);
  }

  lemma {:induction false} TraceExists(h: Hash, raw: seq<Word>, m: seq<Word>) returns (g: Trace)
    requires |raw| == 16 && |m| == 16 && forall k :: 0 <= k < 16 ==> Swap(raw[k]) == m[k]
    ensures IsTrace(g) && g.b[0] == raw && g.r[0] == h && g.r[80] == Rounds(h, m, 80)
  {
    g := Trace(seq(80, t requires 0 <= t => W(m, t)), seq(81, t requires 0 <= t => Snapshot(raw, m, t)),
               seq(81, t requires 0 <= t => Rounds(h, m, t)));
    forall t | 0 <= t < 80 ensures BlockStep(g, t) {
      if t < 16 {
        LoadedIsThere(raw, m, t, t);
      } else {
        NextWord(raw, m, t);
      }
    }
    forall t | 0 <= t < 80 ensures RoundStep(g, t) {
      assert g.r[t + 1] == Rounds(h, m, t + 1);
    }
  }

  /** The invariant between two rounds; the registers are listed in the order of their roles. */
  ghost predicate At(block: array<Word>, a: Word, b: Word, c: Word, d: Word, e: Word, g: Trace, t: nat)
    reads block
  {
    |g.b| == |g.r| == 81 && t <= 80 && block[..] == g.b[t] && g.r[t] == Hash(a, b, c, d, e)
  }

  /** blk0: swaps word `i` in place. */
  method Blk0(block: array<Word>, i: nat, ghost g: Trace) returns (x: Word)
    requires i < 16 && IsTrace(g) && block[..] == g.b[i]
    modifies block
    ensures block[..] == g.b[i + 1] && x == g.w[i]
  {
    assert BlockStep(g, i);
    x := Swap(block[i]);
    block[i] := x;
  }

  /** blk: replaces the oldest word of the window by the next one. */
  method Blk(block: array<Word>, i: nat, ghost g: Trace) returns (x: Word)
    requires 16 <= i < 80 && IsTrace(g) && block[..] == g.b[i]
    modifies block
    ensures block[..] == g.b[i + 1] && x == g.w[i]
  {
    assert BlockStep(g, i);
    x := Expand(block[(i + 13) % 16], block[(i + 8) % 16], block[(i + 2) % 16], block[i % 16]);
    block[i % 16] := x;
  }

  /** A round of the definition, with the sum in the order in which the macros add. */
  lemma {:induction false} RoundForm(v: Word, w: Word, x: Word, y: Word, z: Word, s: Word, t: nat, f: Word)
    requires f == F(t, w, x, y)
    ensures Round(Hash(v, w, x, y, z), t, s) == Hash(Sum(z, f, s, K(t), Rotl5(v)), v, Rotl30(w), x, y)
  {
    Reorder(z, f, s, K(t), Rotl5(v));
  }

  lemma {:induction false} Reorder(z: Word, f: Word, s: Word, k: Word, r: Word)
    ensures Sum(z, f, s, k, r) == Sum(r, f, z, k, s)
  {
  }

  // The five round macros: (v, w, x, y, z) are the registers in their current roles.

  method R0(v: Word, w: Word, x: Word, y: Word, z: Word, block: array<Word>, i: nat,
            ghost g: Trace) returns (z': Word, w': Word)
    requires i < 16 && IsTrace(g) && At(block, v, w, x, y, z, g, i)
    modifies block
    ensures At(block, z', v, w', x, y, g, i + 1)
  {
    var s := Blk0(block, i, g);
    var f := ((w & (x ^ y)) ^ y);
    z' := Sum(z, f, s, 0x5A827999, Rotl5(v));
    w' := Rotl30(w);
    ChForm(w, x, y);
    RoundForm(v, w, x, y, z, s, i, f);
    assert RoundStep(g, i);
  }

  method R1(v: Word, w: Word, x: Word, y: Word, z: Word, block: array<Word>, i: nat,
            ghost g: Trace) returns (z': Word, w': Word)
    requires 16 <= i < 20 && IsTrace(g) && At(block, v, w, x, y, z, g, i)
    modifies block
    ensures At(block, z', v, w', x, y, g, i + 1)
  {
    var s := Blk(block, i, g);
    var f := ((w & (x ^ y)) ^ y);
    z' := Sum(z, f, s, 0x5A827999, Rotl5(v));
    w' := Rotl30(w);
    ChForm(w, x, y);
    RoundForm(v, w, x, y, z, s, i, f);
    assert RoundStep(g, i);
  }

  method R2(v: Word, w: Word, x: Word, y: Word, z: Word, block: array<Word>, i: nat,
            ghost g: Trace) returns (z': Word, w': Word)
    requires 20 <= i < 40 && IsTrace(g) && At(block, v, w, x, y, z, g, i)
    modifies block
    ensures At(block, z', v, w', x, y, g, i + 1)
  {
    var s := Blk(block, i, g);
    var f := (w ^ x ^ y);
    z' := Sum(z, f, s, 0x6ED9EBA1, Rotl5(v));
    w' := Rotl30(w);
    RoundForm(v, w, x, y, z, s, i, f);
    assert RoundStep(g, i);
  }

  method R3(v: Word, w: Word, x: Word, y: Word, z: Word, block: array<Word>, i: nat,
            ghost g: Trace) returns (z': Word, w': Word)
    requires 40 <= i < 60 && IsTrace(g) && At(block, v, w, x, y, z, g, i)
    modifies block
    ensures At(block, z', v, w', x, y, g, i + 1)
  {
    var s := Blk(block, i, g);
    var f := (((w | x) & y) | (w & x));
    z' := Sum(z, f, s, 0x8F1BBCDC, Rotl5(v));
    w' := Rotl30(w);
    MajForm(w, x, y);
    RoundForm(v, w, x, y, z, s, i, f);
    assert RoundStep(g, i);
  }

  method R4(v: Word, w: Word, x: Word, y: Word, z: Word, block: array<Word>, i: nat,
            ghost g: Trace) returns (z': Word, w': Word)
    requires 60 <= i < 80 && IsTrace(g) && At(block, v, w, x, y, z, g, i)
    modifies block
    ensures At(block, z', v, w', x, y, g, i + 1)
  {
    var s := Blk(block, i, g);
    var f := (w ^ x ^ y);
    z' := Sum(z, f, s, 0xCA62C1D6, Rotl5(v));
    w' := Rotl30(w);
    RoundForm(v, w, x, y, z, s, i, f);
    assert RoundStep(g, i);
  }

  // The 80 unrolled rounds. After every 5 of them the roles are back at the same registers.

  /** Rounds 0 to 9. */
  method Rounds0To9(block: array<Word>, a0: Word, b0: Word, c0: Word, d0: Word, e0: Word,
                ghost g: Trace)
    returns (a: Word, b: Word, c: Word, d: Word, e: Word)
    requires IsTrace(g) && At(block, a0, b0, c0, d0, e0, g, 0)
    modifies block
    ensures At(block, a, b, c, d, e, g, 10)
  {
    a, b, c, d, e := a0, b0, c0, d0, e0;
    e, b := R0(a, b, c, d, e, block, 0, g); d, a := R0(e, a, b, c, d, block, 1, g);
    c, e := R0(d, e, a, b, c, block, 2, g); b, d := R0(c, d, e, a, b, block, 3, g);
    a, c := R0(b, c, d, e, a, block, 4, g); e, b := R0(a, b, c, d, e, block, 5, g);
    d, a := R0(e, a, b, c, d, block, 6, g); c, e := R0(d, e, a, b, c, block, 7, g);
    b, d := R0(c, d, e, a, b, block, 8, g); a, c := R0(b, c, d, e, a, block, 9, g);
  }

  /** Rounds 10 to 19. */
  method Rounds10To19(block: array<Word>, a0: Word, b0: Word, c0: Word, d0: Word, e0: Word,
                ghost g: Trace)
    returns (a: Word, b: Word, c: Word, d: Word, e: Word)
    requires IsTrace(g) && At(block, a0, b0, c0, d0, e0, g, 10)
    modifies block
    ensures At(block, a, b, c, d, e, g, 20)
  {
    a, b, c, d, e := a0, b0, c0, d0, e0;
    e, b := R0(a, b, c, d, e, block, 10, g); d, a := R0(e, a, b, c, d, block, 11, g);
    c, e := R0(d, e, a, b, c, block, 12, g); b, d := R0(c, d, e, a, b, block, 13, g);
    a, c := R0(b, c, d, e, a, block, 14, g); e, b := R0(a, b, c, d, e, block, 15, g);
    d, a := R1(e, a, b, c, d, block, 16, g); c, e := R1(d, e, a, b, c, block, 17, g);
    b, d := R1(c, d, e, a, b, block, 18, g); a, c := R1(b, c, d, e, a, block, 19, g);
  }

  /** Rounds 20 to 29. */
  method Rounds20To29(block: array<Word>, a0: Word, b0: Word, c0: Word, d0: Word, e0: Word,
                ghost g: Trace)
    returns (a: Word, b: Word, c: Word, d: Word, e: Word)
    requires IsTrace(g) && At(block, a0, b0, c0, d0, e0, g, 20)
    modifies block
    ensures At(block, a, b, c, d, e, g, 30)
  {
    a, b, c, d, e := a0, b0, c0, d0, e0;
    e, b := R2(a, b, c, d, e, block, 20, g); d, a := R2(e, a, b, c, d, block, 21, g);
    c, e := R2(d, e, a, b, c, block, 22, g); b, d := R2(c, d, e, a, b, block, 23, g);
    a, c := R2(b, c, d, e, a, block, 24, g); e, b := R2(a, b, c, d, e, block, 25, g);
    d, a := R2(e, a, b, c, d, block, 26, g); c, e := R2(d, e, a, b, c, block, 27, g);
    b, d := R2(c, d, e, a, b, block, 28, g); a, c := R2(b, c, d, e, a, block, 29, g);
  }

  /** Rounds 30 to 39. */
  method Rounds30To39(block: array<Word>, a0: Word, b0: Word, c0: Word, d0: Word, e0: Word,
                ghost g: Trace)
    returns (a: Word, b: Word, c: Word, d: Word, e: Word)
    requires IsTrace(g) && At(block, a0, b0, c0, d0, e0, g, 30)
    modifies block
    ensures At(block, a, b, c, d, e, g, 40)
  {
    a, b, c, d, e := a0, b0, c0, d0, e0;
    e, b := R2(a, b, c, d, e, block, 30, g); d, a := R2(e, a, b, c, d, block, 31, g);
    c, e := R2(d, e, a, b, c, block, 32, g); b, d := R2(c, d, e, a, b, block, 33, g);
    a, c := R2(b, c, d, e, a, block, 34, g); e, b := R2(a, b, c, d, e, block, 35, g);
    d, a := R2(e, a, b, c, d, block, 36, g); c, e := R2(d, e, a, b, c, block, 37, g);
    b, d := R2(c, d, e, a, b, block, 38, g); a, c := R2(b, c, d, e, a, block, 39, g);
  }

  /** Rounds 40 to 49. */
  method Rounds40To49(block: array<Word>, a0: Word, b0: Word, c0: Word, d0: Word, e0: Word,
                ghost g: Trace)
    returns (a: Word, b: Word, c: Word, d: Word, e: Word)
    requires IsTrace(g) && At(block, a0, b0, c0, d0, e0, g, 40)
    modifies block
    ensures At(block, a, b, c, d, e, g, 50)
  {
    a, b, c, d, e := a0, b0, c0, d0, e0;
    e, b := R3(a, b, c, d, e, block, 40, g); d, a := R3(e, a, b, c, d, block, 41, g);
    c, e := R3(d, e, a, b, c, block, 42, g); b, d := R3(c, d, e, a, b, block, 43, g);
    a, c := R3(b, c, d, e, a, block, 44, g); e, b := R3(a, b, c, d, e, block, 45, g);
    d, a := R3(e, a, b, c, d, block, 46, g); c, e := R3(d, e, a, b, c, block, 47, g);
    b, d := R3(c, d, e, a, b, block, 48, g); a, c := R3(b, c, d, e, a, block, 49, g);
  }

  /** Rounds 50 to 59. */
  method Rounds50To59(block: array<Word>, a0: Word, b0: Word, c0: Word, d0: Word, e0: Word,
                ghost g: Trace)
    returns (a: Word, b: Word, c: Word, d: Word, e: Word)
    requires IsTrace(g) && At(block, a0, b0, c0, d0, e0, g, 50)
    modifies block
    ensures At(block, a, b, c, d, e, g, 60)
  {
    a, b, c, d, e := a0, b0, c0, d0, e0;
    e, b := R3(a, b, c, d, e, block, 50, g); d, a := R3(e, a, b, c, d, block, 51, g);
    c, e := R3(d, e, a, b, c, block, 52, g); b, d := R3(c, d, e, a, b, block, 53, g);
    a, c := R3(b, c, d, e, a, block, 54, g); e, b := R3(a, b, c, d, e, block, 55, g);
    d, a := R3(e, a, b, c, d, block, 56, g); c, e := R3(d, e, a, b, c, block, 57, g);
    b, d := R3(c, d, e, a, b, block, 58, g); a, c := R3(b, c, d, e, a, block, 59, g);
  }

  /** Rounds 60 to 69. */
  method Rounds60To69(block: array<Word>, a0: Word, b0: Word, c0: Word, d0: Word, e0: Word,
                ghost g: Trace)
    returns (a: Word, b: Word, c: Word, d: Word, e: Word)
    requires IsTrace(g) && At(block, a0, b0, c0, d0, e0, g, 60)
    modifies block
    ensures At(block, a, b, c, d, e, g, 70)
  {
    a, b, c, d, e := a0, b0, c0, d0, e0;
    e, b := R4(a, b, c, d, e, block, 60, g); d, a := R4(e, a, b, c, d, block, 61, g);
    c, e := R4(d, e, a, b, c, block, 62, g); b, d := R4(c, d, e, a, b, block, 63, g);
    a, c := R4(b, c, d, e, a, block, 64, g); e, b := R4(a, b, c, d, e, block, 65, g);
    d, a := R4(e, a, b, c, d, block, 66, g); c, e := R4(d, e, a, b, c, block, 67, g);
    b, d := R4(c, d, e, a, b, block, 68, g); a, c := R4(b, c, d, e, a, block, 69, g);
  }

  /** Rounds 70 to 79. */
  method Rounds70To79(block: array<Word>, a0: Word, b0: Word, c0: Word, d0: Word, e0: Word,
                ghost g: Trace)
    returns (a: Word, b: Word, c: Word, d: Word, e: Word)
    requires IsTrace(g) && At(block, a0, b0, c0, d0, e0, g, 70)
    modifies block
    ensures At(block, a, b, c, d, e, g, 80)
  {
    a, b, c, d, e := a0, b0, c0, d0, e0;
    e, b := R4(a, b, c, d, e, block, 70, g); d, a := R4(e, a, b, c, d, block, 71, g);
    c, e := R4(d, e, a, b, c, block, 72, g); b, d := R4(c, d, e, a, b, block, 73, g);
    a, c := R4(b, c, d, e, a, block, 74, g); e, b := R4(a, b, c, d, e, block, 75, g);
    d, a := R4(e, a, b, c, d, block, 76, g); c, e := R4(d, e, a, b, c, block, 77, g);
    b, d := R4(c, d, e, a, b, block, 78, g); a, c := R4(b, c, d, e, a, block, 79, g);
  }

  function LoadWords(b: seq<Octet>): (l: seq<Word>)
    requires |b| == 64
    ensures |l| == 16
  {
    seq(16, i requires 0 <= i < 16 => LittleEndian(b[4 * i], b[4 * i + 1], b[4 * i + 2], b[4 * i + 3]))
  }

  lemma {:induction false} SwappedWords(b: seq<Octet>)
    requires |b| == 64
    ensures forall k :: 0 <= k < 16 ==> Swap(LoadWords(b)[k]) == BlockWords(b)[k]
  {
    forall k | 0 <= k < 16 ensures Swap(LoadWords(b)[k]) == BlockWords(b)[k] {
      SwapIsBigEndian(b[4 * k], b[4 * k + 1], b[4 * k + 2], b[4 * k + 3]);
    }
  }

  ghost function HashOf(state: array<Word>): Hash
    requires state.Length == 5
    reads state
  {
    Hash(state[0], state[1], state[2], state[3], state[4])
  }

  method AddBack(state: array<Word>, a: Word, b: Word, c: Word, d: Word, e: Word)
    requires state.Length == 5
    modifies state
    ensures HashOf(state) == Add(old(HashOf(state)), Hash(a, b, c, d, e))
  {
    state[0] := Plus(state[0], a);
    state[1] := Plus(state[1], b);
    state[2] := Plus(state[2], c);
    state[3] := Plus(state[3], d);
    state[4] := Plus(state[4], e);
  }

  /** The block function computes the compression of section 6.1.2 for every state and block. */
  method Transform(state: array<Word>, buffer: seq<Octet>)
    requires state.Length == 5 && |buffer| == 64
    modifies state
    ensures HashOf(state) == Compress(old(HashOf(state)), buffer)
  {
    var raw := LoadWords(buffer);
    var block := new Word[16](i requires 0 <= i < 16 => raw[i]);
    assert block[..] == raw;
    SwappedWords(buffer);
    ghost var g := TraceExists(HashOf(state), raw, BlockWords(buffer));
    var a, b, c, d, e := state[0], state[1], state[2], state[3], state[4];
    a, b, c, d, e := Rounds0To9(block, a, b, c, d, e, g);
    a, b, c, d, e := Rounds10To19(block, a, b, c, d, e, g);
    a, b, c, d, e := Rounds20To29(block, a, b, c, d, e, g);
    a, b, c, d, e := Rounds30To39(block, a, b, c, d, e, g);
    a, b, c, d, e := Rounds40To49(block, a, b, c, d, e, g);
    a, b, c, d, e := Rounds50To59(block, a, b, c, d, e, g);
    a, b, c, d, e := Rounds60To69(block, a, b, c, d, e, g);
    a, b, c, d, e := Rounds70To79(block, a, b, c, d, e, g);
    AddBack(state, a, b, c, d, e);
  }

  // ---- the streaming context ----

  /** The two counter words and the number of wrap-arounds give the bit length. */
  ghost predicate Counts(c0: nat, c1: nat, wraps: nat, total: nat) {
    c0 < U32 && c1 < U32 && c0 + U32 * c1 + U64 * wraps == 8 * total
  }

  /** The two-word bit counter after `len` more bytes. */
  lemma {:induction false} CounterAdds(c0: nat, c1: nat, wraps: nat, len: nat, total: nat,
                                       low: nat, carry: nat, high: nat) returns (wraps': nat)
    requires Counts(c0, c1, wraps, total) && len < U32
    requires low == (c0 + 8 * len % U32) % U32
    requires carry == if low < c0 then 1 else 0
    requires high == ((c1 + carry) % U32 + len / 0x2000_0000) % U32
    ensures Counts(low, high, wraps', total + len)
  {
    var q, mid := len / 0x2000_0000, (c1 + carry) % U32;
    AddWord(c0, 8 * len % U32, low, carry);
    assert 8 * len == U32 * q + 8 * len % U32;
    AddWord(c1, carry, mid, if mid < c1 then 1 else 0);
    AddWord(mid, q, high, if high < mid then 1 else 0);
    wraps' := wraps + (if mid < c1 then 1 else 0) + (if high < mid then 1 else 0);
  }

  /** A 32-bit sum wrapped exactly when it is below its first operand. */
  lemma {:induction false} AddWord(x: nat, y: nat, sum: nat, carry: nat)
    requires x < U32 && y < U32 && sum == (x + y) % U32
    requires carry == if sum < x then 1 else 0
    ensures sum == x + y - U32 * carry
  {
  }

  /** The fill level of the buffer can be read off the low counter word. */
  lemma {:induction false} Fill(c0: nat, c1: nat, wraps: nat, total: nat)
    requires Counts(c0, c1, wraps, total)
    ensures c0 / 8 % 64 == total % 64
  {
    var k := 0x80_0000_0000_0000 * wraps + 0x80_0000 * c1;
    assert c0 == 8 * (total - 64 * k);
    SixtyFours(total - 64 * k, k);
  }

  /** The copies of SHA1Update stay inside the input and the 64-byte buffer, with the test for
      a complete block made on the 32-bit sum as it is. */
  predicate CopiesFit(fill: nat, len: nat) {
    if (fill + len) % U32 > 63 then 64 - fill <= len else fill + len <= 64
  }

  /** They do exactly when that sum does not wrap; a wrapped sum looks like a short piece, and
      the whole piece is copied behind the end of the buffer. */
  lemma {:induction false} CopiesFitExactly(fill: nat, len: nat)
    requires fill < 64 && len < U32
    ensures CopiesFit(fill, len) <==> fill + len < U32
  {
    if fill + len >= U32 {
      assert (fill + len) % U32 == fill + len - U32 <= 62;
    }
  }

  lemma {:induction false} SixtyFours(x: nat, k: nat)
    ensures (x + 64 * k) % 64 == x % 64
  {
  }

  lemma {:induction false} AbsorbBlock(h: Hash, x: seq<Octet>, b: seq<Octet>)
    requires |x| % 64 == 0 && |b| == 64
    ensures Absorb(h, x + b) == Compress(Absorb(h, x), b)
  {
    AbsorbConcat(h, x, b);
    AbsorbOne(Absorb(h, x), b);
  }

  /** Completing the carried-over part block. */
  lemma {:induction false} AbsorbCarried(h: Hash, msg: seq<Octet>, carried: seq<Octet>, more: seq<Octet>)
    requires |carried| == |msg| % 64 && carried == msg[|msg| - |carried|..]
    requires |carried| + |more| == 64
    ensures Absorb(h, msg + more) == Compress(Absorb(h, msg), carried + more)
  {
    var x := msg[..|msg| - |carried|];
    assert msg == x + carried;
    assert msg + more == x + (carried + more);
    AbsorbTail(h, x, carried);
    AbsorbBlock(h, x, carried + more);
  }

  /** Completing one more block. */
  lemma {:induction false} AbsorbNext(h: Hash, msg: seq<Octet>, data: seq<Octet>, i: nat)
    requires (|msg| + i) % 64 == 0 && i + 64 <= |data|
    ensures Absorb(h, msg + data[..i + 64]) == Compress(Absorb(h, msg + data[..i]), data[i..i + 64])
  {
    AbsorbBlock(h, msg + data[..i], data[i..i + 64]);
    assert msg + data[..i + 64] == msg + data[..i] + data[i..i + 64];
  }

  lemma {:induction false} AbsorbRest(h: Hash, msg: seq<Octet>, data: seq<Octet>, i: nat)
    requires (|msg| + i) % 64 == 0 && i <= |data| < i + 64
    ensures Absorb(h, msg + data) == Absorb(h, msg + data[..i])
  {
    assert msg + data == msg + data[..i] + data[i..];
    AbsorbTail(h, msg + data[..i], data[i..]);
  }

  ghost function Padded(msg: seq<Octet>, k: nat): (r: seq<Octet>)
    ensures |r| == |msg| + 1 + k
  {
    msg + [0x80] + Zeros(k)
  }

  lemma {:induction false} PaddedStep(msg: seq<Octet>, k: nat)
    ensures Padded(msg, 0) == msg + [0x80]
    ensures Padded(msg, k + 1) == Padded(msg, k) + [0]
  {
    assert Zeros(k + 1) == Zeros(k) + [0];
  }

  lemma {:induction false} LeastPad(n: nat, k: nat)
    requires k <= PadZeros(n)
    ensures (n + 1 + k) % 64 == 56 <==> k == PadZeros(n)
  {
    var z := PadZeros(n);
    var a := (n + 1 + z) / 64;
    assert n + 1 + k == 64 * a + (56 - (z - k));
  }

  /** The padding loop stops at the right moment. */
  lemma {:induction false} AtPad(c0: nat, c1: nat, wraps: nat, n: nat, k: nat)
    requires Counts(c0, c1, wraps, n + 1 + k) && k <= PadZeros(n)
    ensures c0 / 8 % 64 == 56 <==> k == PadZeros(n)
  {
    Fill(c0, c1, wraps, n + 1 + k);
    LeastPad(n, k);
  }

  class Sha1Context {
    const state: array<Word>
    var count0: nat
    var count1: nat
    const buffer: array<Octet>
    ghost var wraps: nat

    ghost predicate Valid() reads this {
      state.Length == 5 && buffer.Length == 64 && count0 < U32 && count1 < U32
    }

    /** The context stands for `msg`: the whole blocks are in the hash value, the rest is at
        the front of the buffer, and the counter is the bit length
        modulo 2^64. */
    ghost predicate Holds(msg: seq<Octet>) reads this, state, buffer {
      && Valid()
      && Counts(count0, count1, wraps, |msg|)
      && HashOf(state) == Absorb(INITIAL, msg)
      && buffer[..|msg| % 64] == msg[|msg| - |msg| % 64..]
    }

    /** SHA1Init on a new context. */
    constructor ()
      ensures Holds([]) && fresh(state) && fresh(buffer)
    {
      state := new Word[5](_ => 0);
      buffer := new Octet[64](_ => 0);
      count0, count1, wraps := 0, 0, 0;
      new;
      state[0] := 0x67452301;
      state[1] := 0xEFCDAB89;
      state[2] := 0x98BADCFE;
      state[3] := 0x10325476;
      state[4] := 0xC3D2E1F0;
    }

    /** The counter part of SHA1Update; `j` is the number of bytes carried over. */
    method Count(len: nat, ghost msg: seq<Octet>) returns (j: nat)
      requires Valid() && len < U32 && Counts(count0, count1, wraps, |msg|)
      modifies this
      ensures Valid() && Counts(count0, count1, wraps, |msg| + len)
      ensures j == |msg| % 64
    {
      Fill(count0, count1, wraps, |msg|);
      ghost var high := count1;
      j := count0;
      count0 := (count0 + 8 * len % U32) % U32;
      if count0 < j {
        count1 := (count1 + 1) % U32;
      }
      count1 := (count1 + len / 0x2000_0000) % U32;
      wraps := CounterAdds(j, high, wraps, len, |msg|, count0, if count0 < j then 1 else 0, count1);
      j := j / 8 % 64;
    }

    /** Absorbs the next piece of the message. The 32-bit sum of the carried-over bytes and
        the length must not wrap. */
    method Update(data: seq<Octet>, ghost msg: seq<Octet>)
      requires Holds(msg) && |msg| % 64 + |data| < U32
      modifies this, state, buffer
      ensures Holds(msg + data)
    {
      var j := Count(|data|, msg);
      var i := 0;
      if j + |data| > 63 {
        i := WholeBlocks(data, j, msg);
        j := 0;
      } else {
        AbsorbShort(INITIAL, msg, data);
      }
      Carried(msg, data, i, j);
      Copy(j, data[i..]);
    }

    /** The part of SHA1Update that runs when the input completes a block. */
    method WholeBlocks(data: seq<Octet>, j: nat, ghost msg: seq<Octet>) returns (i: nat)
      requires state.Length == 5 && buffer.Length == 64
      requires j == |msg| % 64 && 64 <= j + |data| < U32
      requires HashOf(state) == Absorb(INITIAL, msg) && buffer[..j] == msg[|msg| - j..]
      modifies state, buffer
      ensures i <= |data| < i + 64 && (|msg| + i) % 64 == 0
      ensures HashOf(state) == Absorb(INITIAL, msg + data)
    {
      i := 64 - j;
      Copy(j, data[..i]);
      assert buffer[..] == buffer[..64];
      AbsorbCarried(INITIAL, msg, msg[|msg| - j..], data[..i]);
      Transform(state, buffer[..]);
      i := MoreBlocks(data, i, msg);
    }

    /** The block loop of SHA1Update. */
    method MoreBlocks(data: seq<Octet>, from: nat, ghost msg: seq<Octet>) returns (i: nat)
      requires state.Length == 5 && from <= |data| && (|msg| + from) % 64 == 0
      requires HashOf(state) == Absorb(INITIAL, msg + data[..from])
      modifies state
      ensures i <= |data| < i + 64 && (|msg| + i) % 64 == 0
      ensures HashOf(state) == Absorb(INITIAL, msg + data)
    {
      i := from;
      while i + 63 < |data|
        invariant i <= |data| && (|msg| + i) % 64 == 0
        invariant HashOf(state) == Absorb(INITIAL, msg + data[..i])
      {
        AbsorbNext(INITIAL, msg, data, i);
        Transform(state, data[i..i + 64]);
        i := i + 64;
      }
      AbsorbRest(INITIAL, msg, data, i);
    }

    /** memcpy into the buffer. */
    method Copy(at: nat, src: seq<Octet>)
      requires buffer.Length == 64 && at + |src| <= 64
      modifies buffer
      ensures buffer[..at + |src|] == old(buffer[..at]) + src
    {
      forall k | 0 <= k < |src| { buffer[at + k] := src[k]; }
    }

    /** Zeroed by SHA1Final. */
    method Wipe()
      requires Valid()
      modifies this, state, buffer
      ensures Valid() && count0 == count1 == 0
      ensures forall k :: 0 <= k < 5 ==> state[k] == 0
      ensures forall k :: 0 <= k < 64 ==> buffer[k] == 0
    {
      forall k | 0 <= k < 5 { state[k] := 0; }
      forall k | 0 <= k < 64 { buffer[k] := 0; }
      count0, count1 := 0, 0;
    }

    /** The padding loop: one byte per call, until 8 bytes are left in the block. */
    method AppendPadding(ghost msg: seq<Octet>)
      requires Holds(msg)
      modifies this, state, buffer
      ensures Holds(Padded(msg, PadZeros(|msg|)))
    {
      Update([0x80], msg);
      ghost var k := 0;
      PaddedStep(msg, 0);
      AtPad(count0, count1, wraps, |msg|, 0);
      while count0 / 8 % 64 != 56
        invariant 0 <= k <= PadZeros(|msg|)
        invariant Holds(Padded(msg, k))
        invariant count0 / 8 % 64 == 56 <==> k == PadZeros(|msg|)
        decreases PadZeros(|msg|) - k
      {
        PaddedStep(msg, k);
        Update([0], Padded(msg, k));
        k := k + 1;
        AtPad(count0, count1, wraps, |msg|, k);
      }
    }

    /** Pads, appends the bit length and reads the digest. */
    method Final(ghost msg: seq<Octet>) returns (digest: seq<Octet>)
      requires Holds(msg) && 8 * |msg| < U64
      modifies this, state, buffer
      ensures digest == Digest(msg)
      ensures Valid() && count0 == count1 == 0
    {
      NatBytes(count0);
      NatBytes(count1);
      var finalcount := CountBytes(count0, count1, Nat32(count0), Nat32(count1));
      LengthBytes(count0, count1, 8 * |msg|);
      AppendPadding(msg);
      Update(finalcount, Padded(msg, PadZeros(|msg|)));
      digest := ReadDigest(state);
      Wipe();
    }
  }

  lemma {:induction false} LengthBytes(c0: nat, c1: nat, n: nat)
    requires c0 < U32 && c1 < U32 && c0 + U32 * c1 == n
    ensures n < U64 && Nat64(n) == Nat32(c1) + Nat32(c0)
  {
    assert n / U32 == c1 && n % U32 == c0;
  }

  lemma {:induction false} AbsorbShort(h: Hash, msg: seq<Octet>, data: seq<Octet>)
    requires |msg| % 64 + |data| < 64
    ensures Absorb(h, msg + data) == Absorb(h, msg)
  {
    var n := |msg| - |msg| % 64;
    assert msg == msg[..n] + msg[n..];
    assert msg + data == msg[..n] + (msg[n..] + data);
    AbsorbTail(h, msg[..n], msg[n..]);
    AbsorbTail(h, msg[..n], msg[n..] + data);
  }

  /** What is left for the buffer after the whole blocks are gone. */
  lemma {:induction false} Carried(msg: seq<Octet>, data: seq<Octet>, i: nat, j: nat)
    requires i <= |data| && j + (|data| - i) < 64
    requires (i == 0 && j == |msg| % 64) || (j == 0 && (|msg| + i) % 64 == 0)
    ensures var all := msg + data;
            && |all| % 64 == j + (|data| - i)
            && all[|all| - |all| % 64..] == (if j == 0 then [] else msg[|msg| - j..]) + data[i..]
  {
  }

  function Shift8(c: nat, n: nat): nat {
    if n == 0 then c else if n == 1 then c / 0x100 else if n == 2 then c / 0x1_0000 else c / 0x100_0000
  }

  function HalfByte(c: nat, k: nat): Octet
    requires k < 4
  {
    ToOctet(Shift8(c, 3 - k) % 256)
  }

  lemma {:induction false} NatBytes(c: nat)
    requires c < U32
    ensures forall k :: 0 <= k < 4 ==> Nat32(c)[k] == HalfByte(c, k)
  {
    assert c / 0x100_0000 % 256 == c / 0x100_0000;
  }

  /** The length bytes: the high word first, each word from its top byte down. */
  method CountBytes(count0: nat, count1: nat, ghost low: seq<Octet>, ghost high: seq<Octet>)
    returns (finalcount: seq<Octet>)
    requires |low| == |high| == 4
    requires forall k :: 0 <= k < 4 ==> low[k] == HalfByte(count0, k) && high[k] == HalfByte(count1, k)
    ensures finalcount == high + low
  {
    finalcount := [];
    for i := 0 to 8
      invariant finalcount == (high + low)[..i]
    {
      finalcount := finalcount + [HalfByte(if i >= 4 then count0 else count1, i % 4)];
    }
  }

  function ByteOf(w: Word, n: nat): Octet {
    if n == 0 then (w & 0xFF) as bv8
    else if n == 1 then ((w >> 8) & 0xFF) as bv8
    else if n == 2 then ((w >> 16) & 0xFF) as bv8
    else (w >> 24) as bv8
  }

  lemma {:induction false} WordByte(w: Word, k: nat)
    requires k < 4
    ensures WordBytes(w)[k] == ByteOf(w, 3 - k)
  {
  }

  function DigestByte(words: seq<Word>, i: nat): Octet
    requires |words| == 5 && i < 20
  {
    ByteOf(words[i / 4], 3 - i % 4)
  }

  lemma {:induction false} DigestIsHashBytes(w: seq<Word>, i: nat)
    requires |w| == 5 && i < 20
    ensures HashBytes(Hash(w[0], w[1], w[2], w[3], w[4]))[i] == DigestByte(w, i)
  {
    WordByte(w[i / 4], i % 4);
    FiveTimesFour(WordBytes(w[0]), WordBytes(w[1]), WordBytes(w[2]), WordBytes(w[3]), WordBytes(w[4]), i);
  }

  lemma {:induction false} FiveTimesFour(a: seq<Octet>, b: seq<Octet>, c: seq<Octet>, d: seq<Octet>, e: seq<Octet>, i: nat)
    requires |a| == |b| == |c| == |d| == |e| == 4 && i < 20
    ensures (a + b + c + d + e)[i] == [a, b, c, d, e][i / 4][i % 4]
  {
  }

  method ReadDigest(state: array<Word>) returns (digest: seq<Octet>)
    requires state.Length == 5
    ensures digest == HashBytes(HashOf(state))
  {
    digest := [];
    var words := state[..];
    for i := 0 to 20
      invariant |digest| == i
      invariant forall k :: 0 <= k < i ==> digest[k] == DigestByte(words, k)
    {
      digest := digest + [DigestByte(words, i)];
    }
    forall i | 0 <= i < 20 ensures digest[i] == HashBytes(HashOf(state))[i] {
      DigestIsHashBytes(words, i);
    }
  }

  // ---- every way of cutting the message ----

  function Concat(pieces: seq<seq<Octet>>): seq<Octet> {
    if pieces == [] then [] else Concat(pieces[..|pieces| - 1]) + pieces[|pieces| - 1]
  }

  lemma {:induction false} ConcatNext(pieces: seq<seq<Octet>>, k: nat)
    requires k < |pieces|
    ensures Concat(pieces[..k + 1]) == Concat(pieces[..k]) + pieces[k]
  {
    assert pieces[..k + 1][..k] == pieces[..k];
  }

  /** Init, any number of Updates, Final: the digest of the whole message, however it is cut. */
  method HashPieces(pieces: seq<seq<Octet>>) returns (digest: seq<Octet>)
    requires forall k :: 0 <= k < |pieces| ==> |pieces[k]| <= U32 - 64
    requires 8 * |Concat(pieces)| < U64
    ensures digest == Digest(Concat(pieces))
  {
    var context := new Sha1Context();
    for k := 0 to |pieces|
      invariant fresh(context) && fresh(context.state) && fresh(context.buffer)
      invariant context.Holds(Concat(pieces[..k]))
    {
      ConcatNext(pieces, k);
      context.Update(pieces[k], Concat(pieces[..k]));
    }
    assert pieces[..|pieces|] == pieces;
    digest := context.Final(Concat(pieces));
  }
}
