/** The zero-run codec of the LAN control frames: a zero byte is written as the pair
    (0, count), meaning count + 1 zeros; every other byte stands for itself. */
module Rle {
  import opened Basics

  const MAX_COUNT: nat := 255

  /** Number of zeros a (0, count) pair stands for. */
  function PairLen(count: Byte): nat {
    1 + count as int
  }

  function Zeros(n: nat): (z: seq<Byte>)
    ensures |z| == n
    ensures forall k :: 0 <= k < n ==> z[k] == 0
  {
    seq(n, _ => 0)
  }

  /** Number of zeros at the front of `s`, counting at most `max` of them. */
  function ZeroRun(s: seq<Byte>, max: nat): (n: nat)
    ensures n <= |s| && n <= max
    ensures forall k :: 0 <= k < n ==> s[k] == 0
    ensures n < max && n < |s| ==> s[n] != 0
  {
    if max == 0 || s == [] || s[0] != 0 then 0 else 1 + ZeroRun(s[1..], max - 1)
  }

  function Encode(s: seq<Byte>): (w: seq<Byte>)
    ensures s != [] ==> w != []
    decreases |s|
  {
    if s == [] then []
    else if s[0] != 0 then [s[0]] + Encode(s[1..])
    else
      var n := ZeroRun(s[1..], MAX_COUNT);
      [0, n] + Encode(s[1 + n..])
  }

  /** The bytes a coded string stands for; None when it ends inside a (0, count) pair. */
  function Decode(w: seq<Byte>): (s: Option<seq<Byte>>)
    decreases |w|
  {
    if w == [] then Some([])
    else if w[0] != 0 then
      var rest := Decode(w[1..]);
      if rest.None? then None else Some([w[0]] + rest.value)
    else if |w| == 1 then None
    else
      var rest := Decode(w[2..]);
      if rest.None? then None else Some(Zeros(PairLen(w[1])) + rest.value)
  }

  /** Number of bytes produced before the last token of `w` starts. */
  function BeforeLast(w: seq<Byte>): nat
    decreases |w|
  {
    if w == [] then 0
    else if w[0] != 0 then
      if |w| == 1 then 0 else 1 + BeforeLast(w[1..])
    else if |w| <= 2 then 0
    else PairLen(w[1]) + BeforeLast(w[2..])
  }

  /** What the bounded decoder produces in `cap` bytes of room: the result flag (all input
      consumed) and the bytes written. */
  function Inflate(w: seq<Byte>, cap: nat): (r: (bool, seq<Byte>))
    ensures |r.1| <= cap
    decreases |w|
  {
    if w == [] then (true, [])
    else if cap == 0 then (false, [])
    else if w[0] != 0 then
      var r := Inflate(w[1..], cap - 1);
      (r.0, [w[0]] + r.1)
    else if |w| == 1 then (false, [0])
    else
      var n := if PairLen(w[1]) <= cap then PairLen(w[1]) else cap;
      var r := Inflate(w[2..], cap - n);
      (r.0, Zeros(n) + r.1)
  }

  // ---- the two loops ----

  /** The inner loop of the encoder: zeros from position `from` on, at most MAX_COUNT. */
  method CountZeros(input: seq<Byte>, from: nat) returns (count: nat)
    requires from <= |input|
    ensures count == ZeroRun(input[from..], MAX_COUNT)
  {
    var i := from;
    count := 0;
    while i < |input| && input[i] == 0 && count < MAX_COUNT
      invariant i == from + count <= |input|
      invariant count <= MAX_COUNT
      invariant ZeroRun(input[from..], MAX_COUNT)
             == count + ZeroRun(input[i..], MAX_COUNT - count)
    {
      assert input[i..][1..] == input[i + 1..];
      count := count + 1;
      i := i + 1;
    }
  }

  method Put(out: array<Byte>, n: nat, c: Byte) returns (next: nat)
    requires n < out.Length
    modifies out
    ensures next == n + 1 && out[..next] == old(out[..n]) + [c]
  {
    out[n] := c;
    next := n + 1;
  }

  method Compress(input: seq<Byte>, out: array<Byte>) returns (ok: bool, n: nat)
    modifies out
    ensures ok <==> |Encode(input)| <= out.Length
    ensures ok ==> n == |Encode(input)| && out[..n] == Encode(input)
  {
    var i, full := 0, false;
    n := 0;
    assert input[0..] == input && out[..0] == [];
    while n < out.Length && i < |input| && !full
      invariant i <= |input| && n <= out.Length
      invariant if full then |Encode(input)| > out.Length else Encoding(out[..n], input, i)
      decreases |input| - i, !full
    {
      i, n, full := EncodeNext(input, i, out, n);
    }
    if full {
      ok := false;
    } else {
      EncodeEnds(out[..n], input, i);
      ok := i == |input|;
    }
  }

  lemma {:induction false} EncodeEnds(done: seq<Byte>, input: seq<Byte>, i: nat)
    requires Encoding(done, input, i)
    ensures i == |input| ==> Encode(input) == done
    ensures i < |input| ==> |Encode(input)| > |done|
  {
  }

  /** One token of the encoder; `full` means that a (0, count) pair did not fit. */
  method EncodeNext(input: seq<Byte>, i: nat, out: array<Byte>, n: nat) returns (next: nat, end: nat, full: bool)
    requires i < |input| && n < out.Length && Encoding(out[..n], input, i)
    modifies out
    ensures i < next <= |input| && n <= end <= out.Length
    ensures if full then |Encode(input)| > out.Length else Encoding(out[..end], input, next)
  {
    ghost var done := out[..n];
    EncodeStep(done, input, i);
    var c := input[i];
    next, full := i + 1, false;
    if c == 0 {
      var count := CountZeros(input, next);
      next := next + count;
      end := Put(out, n, 0);
      if end == out.Length {
        full := true;
      } else {
        end := Put(out, end, count);
        assert out[..end] == done + [0, count];
      }
    } else {
      end := Put(out, n, c);
    }
  }

  /** The encoder's loop invariant: `done` is the code of the first `i` input bytes. */
  ghost predicate Encoding(done: seq<Byte>, input: seq<Byte>, i: nat) {
    i <= |input| && Encode(input) == done + Encode(input[i..])
  }

  lemma {:induction false} EncodeStep(done: seq<Byte>, input: seq<Byte>, i: nat)
    requires i < |input| && Encoding(done, input, i)
    ensures input[i] != 0 ==> Encoding(done + [input[i]], input, i + 1)
    ensures input[i] == 0 ==>
              var n := ZeroRun(input[i + 1..], MAX_COUNT);
              |Encode(input)| >= |done| + 2 && Encoding(done + [0, n], input, i + 1 + n)
  {
    var s := input[i..];
    var n := if s[0] == 0 then ZeroRun(s[1..], MAX_COUNT) else 0;
    assert s[1..] == input[i + 1..];
    assert s[1 + n..] == input[i + 1 + n..];
    EncodeToken(done, s);
  }

  lemma {:induction false} EncodeToken(done: seq<Byte>, s: seq<Byte>)
    requires s != []
    ensures s[0] != 0 ==> done + Encode(s) == done + [s[0]] + Encode(s[1..])
    ensures s[0] == 0 ==>
              var n := ZeroRun(s[1..], MAX_COUNT);
              done + Encode(s) == done + [0, n] + Encode(s[1 + n..])
  {
  }

  method Decompress(input: seq<Byte>, out: array<Byte>) returns (ok: bool, n: nat)
    modifies out
    ensures n <= out.Length
    ensures ok == Inflate(input, out.Length).0
    ensures out[..n] == Inflate(input, out.Length).1
  {
    var i, cut := 0, false;
    n := 0;
    assert input[0..] == input && out[..0] == [];
    while i < |input| && n < out.Length && !cut
      invariant i <= |input| && n <= out.Length
      invariant if cut then Inflate(input, out.Length) == (false, out[..n]) else Inflating(out[..n], input, i, out.Length)
      decreases |input| - i, !cut
    {
      i, n, cut := DecodeToken(input, i, out, n);
    }
    if cut {
      ok := false;
    } else {
      InflateEnds(out[..n], input, i, out.Length);
      ok := i == |input|;
    }
  }

  lemma {:induction false} InflateEnds(done: seq<Byte>, input: seq<Byte>, i: nat, cap: nat)
    requires Inflating(done, input, i, cap) && (i == |input| || |done| == cap)
    ensures Inflate(input, cap) == (i == |input|, done)
  {
    assert done + [] == done;
  }

  /** One token of the decoder; `cut` means that the input ends inside a (0, count) pair. */
  method DecodeToken(input: seq<Byte>, i: nat, out: array<Byte>, n: nat) returns (next: nat, end: nat, cut: bool)
    requires i < |input| && n < out.Length && Inflating(out[..n], input, i, out.Length)
    modifies out
    ensures i < next <= |input| && n <= end <= out.Length
    ensures if cut then Inflate(input, out.Length) == (false, out[..end])
            else Inflating(out[..end], input, next, out.Length)
  {
    ghost var done := out[..n];
    InflateStep(done, input, i, out.Length);
    var c := input[i];
    next, cut := i + 1, false;
    end := Put(out, n, c);
    if c == 0 {
      if next == |input| {
        cut := true;
      } else {
        var from := end;
        end := PutZeros(out, end, input[next]);
        next := next + 1;
        assert out[..end] == done + Zeros(1 + end - from);
      }
    }
  }

  /** The inner loop of the decoder: `count` zeros, or as many as fit. */
  method PutZeros(out: array<Byte>, n: nat, count: nat) returns (next: nat)
    requires n <= out.Length
    modifies out
    ensures next == if n + count <= out.Length then n + count else out.Length
    ensures out[..next] == old(out[..n]) + Zeros(next - n)
  {
    next := n;
    ghost var was := out[..n];
    var k: nat := 0;
    while k < count && next < out.Length
      invariant k <= count && next == n + k <= out.Length
      invariant out[..next] == was + Zeros(k)
    {
      next := Put(out, next, 0);
      k := k + 1;
    }
  }

  /** The decoder's loop invariant: `done` is what the first `i` input bytes gave. */
  ghost predicate Inflating(done: seq<Byte>, input: seq<Byte>, i: nat, cap: nat) {
    i <= |input| && |done| <= cap
    && Inflate(input, cap).0 == Inflate(input[i..], cap - |done|).0
    && Inflate(input, cap).1 == done + Inflate(input[i..], cap - |done|).1
  }

  lemma {:induction false} InflateStep(done: seq<Byte>, input: seq<Byte>, i: nat, cap: nat)
    requires i < |input| && |done| < cap && Inflating(done, input, i, cap)
    ensures input[i] != 0 ==> Inflating(done + [input[i]], input, i + 1, cap)
    ensures input[i] == 0 && i + 1 == |input| ==> Inflate(input, cap) == (false, done + [0])
    ensures input[i] == 0 && i + 1 < |input| ==>
              var n := PairLen(input[i + 1]);
              var k := if n <= cap - |done| then n else cap - |done|;
              Inflating(done + Zeros(k), input, i + 2, cap)
  {
    var w := input[i..];
    assert w[1..] == input[i + 1..];
    if input[i] != 0 {
      var tail := Inflate(w[1..], cap - |done| - 1).1;
      assert done + ([w[0]] + tail) == done + [w[0]] + tail;
    } else if i + 1 < |input| {
      assert w[2..] == input[i + 2..];
      var n := PairLen(w[1]);
      var k := if n <= cap - |done| then n else cap - |done|;
      var tail := Inflate(w[2..], cap - |done| - k).1;
      assert done + (Zeros(k) + tail) == done + Zeros(k) + tail;
    }
  }

  // ---- what the codec promises ----

  /** A run of zeros, and what is behind it. */
  lemma {:induction false} RunSplits(s: seq<Byte>, n: nat)
    requires s != [] && s[0] == 0 && n == ZeroRun(s[1..], MAX_COUNT)
    ensures Zeros(n + 1) + s[1 + n..] == s
  {
    assert forall k :: 1 <= k < n + 1 ==> s[k] == s[1..][k - 1];
  }

  lemma {:induction false} DecodePair(count: Byte, w: seq<Byte>, s: seq<Byte>)
    requires Decode(w) == Some(s)
    ensures Decode([0, count] + w) == Some(Zeros(PairLen(count)) + s)
  {
    assert ([0, count] + w)[2..] == w;
  }

  lemma {:induction false} DecodeByte(c: Byte, w: seq<Byte>, s: seq<Byte>)
    requires c != 0 && Decode(w) == Some(s)
    ensures Decode([c] + w) == Some([c] + s)
  {
    assert ([c] + w)[1..] == w;
  }

  /** Decoding inverts encoding. */
  lemma {:induction false} DecodeEncode(s: seq<Byte>)
    ensures Decode(Encode(s)) == Some(s)
    decreases |s|
  {
    if s == [] {
    } else if s[0] != 0 {
      DecodeEncode(s[1..]);
      DecodeByte(s[0], Encode(s[1..]), s[1..]);
      assert [s[0]] + s[1..] == s;
    } else {
      var n := ZeroRun(s[1..], MAX_COUNT);
      DecodeEncode(s[1 + n..]);
      DecodePair(n, Encode(s[1 + n..]), s[1 + n..]);
      RunSplits(s, n);
    }
  }

  /** The bounded decoder succeeds exactly on well-formed input whose last token starts
      inside the buffer, and what it writes is the decoded string cut at the capacity. */
  lemma {:induction false} InflateIsBoundedDecode(w: seq<Byte>, cap: nat)
    ensures Inflate(w, cap).0 <==> Decode(w).Some? && (w == [] || BeforeLast(w) < cap)
    ensures Inflate(w, cap).0 ==>
              Inflate(w, cap).1 == if |Decode(w).value| <= cap then Decode(w).value else Decode(w).value[..cap]
    decreases |w|
  {
    if w == [] || cap == 0 {
    } else if w[0] != 0 {
      InflateIsBoundedDecode(w[1..], cap - 1);
    } else if |w| == 1 {
    } else {
      var n := if PairLen(w[1]) <= cap then PairLen(w[1]) else cap;
      InflateIsBoundedDecode(w[2..], cap - n);
      if Inflate(w, cap).0 && PairLen(w[1]) > cap {
        assert Zeros(n) == (Zeros(PairLen(w[1])) + Decode(w[2..]).value)[..cap];
      }
    }
  }

  lemma {:induction false} LastTokenProduces(w: seq<Byte>)
    requires w != [] && Decode(w).Some?
    ensures BeforeLast(w) < |Decode(w).value|
    decreases |w|
  {
    if w[0] != 0 {
      if |w| > 1 { LastTokenProduces(w[1..]); }
    } else if |w| > 2 {
      LastTokenProduces(w[2..]);
    }
  }

  /** Any body that fits the receiver's buffer survives the trip. */
  lemma {:induction false} InflateEncode(s: seq<Byte>, cap: nat)
    requires |s| <= cap
    ensures Inflate(Encode(s), cap) == (true, s)
  {
    DecodeEncode(s);
    InflateIsBoundedDecode(Encode(s), cap);
    if s != [] {
      LastTokenProduces(Encode(s));
    }
  }

  /** The format: a pair stands for one zero more than its count, and a short run of zeros is
      one pair. */
  lemma {:induction false} PairFormat(count: Byte)
    ensures Decode([0, count]) == Some(Zeros(count + 1)) && Encode(Zeros(count + 1)) == [0, count]
  {
    DecodePair(count, [], []);
    assert [0, count] + [] == [0, count] && Zeros(count + 1) + [] == Zeros(count + 1);
    var s := Zeros(count + 1);
    assert s[1..] == Zeros(count) + [];
    ZeroRunOfZeros(count, [], MAX_COUNT);
    assert s[1 + count..] == [];
  }

  // ---- optimality ----

  /** Number of pairs the encoder spends on `z` zeros. */
  function Pairs(z: nat): nat {
    if z == 0 then 0 else 1 + Pairs(if z <= 256 then 0 else z - 256)
  }

  lemma {:induction false} PairsGrow(k: nat, z: nat)
    requires 1 <= k <= 256
    ensures Pairs(z) <= Pairs(k + z) <= 1 + Pairs(z)
    decreases z
  {
    if z > 256 {
      PairsGrow(k, z - 256);
    }
  }

  lemma {:induction false} ZeroRunOfZeros(z: nat, t: seq<Byte>, max: nat)
    requires t == [] || t[0] != 0
    ensures ZeroRun(Zeros(z) + t, max) == if z <= max then z else max
    decreases z
  {
    var s := Zeros(z) + t;
    if z == 0 {
      assert s == t;
    } else if max > 0 {
      assert s[1..] == Zeros(z - 1) + t;
      ZeroRunOfZeros(z - 1, t, max - 1);
    }
  }

  /** The encoder spends two bytes on a run of zeros. */
  lemma {:induction false} EncodeRun(s: seq<Byte>, n: nat)
    requires s != [] && s[0] == 0 && n == ZeroRun(s[1..], MAX_COUNT)
    ensures |Encode(s)| == 2 + |Encode(s[1 + n..])|
  {
  }

  lemma {:induction false} ZerosSuffix(z: nat, t: seq<Byte>, m: nat)
    requires m <= z
    ensures (Zeros(z) + t)[m..] == Zeros(z - m) + t
  {
  }

  lemma {:induction false} ZerosJoin(k: nat, z: nat, t: seq<Byte>)
    ensures Zeros(k) + (Zeros(z) + t) == Zeros(k + z) + t
  {
  }

  lemma {:induction false} EncodeZeros(z: nat, t: seq<Byte>)
    requires t == [] || t[0] != 0
    ensures |Encode(Zeros(z) + t)| == 2 * Pairs(z) + |Encode(t)|
    decreases z
  {
    var s := Zeros(z) + t;
    if z == 0 {
      assert s == t;
    } else {
      var n := if z <= 256 then z - 1 else 255;
      ZerosSuffix(z, t, 1);
      ZeroRunOfZeros(z - 1, t, MAX_COUNT);
      EncodeRun(s, n);
      ZerosSuffix(z, t, 1 + n);
      EncodeZeros(z - 1 - n, t);
    }
  }

  /** One more (0, count) pair in front never saves anything. */
  lemma {:induction false} EncodePrependZeros(k: nat, s: seq<Byte>)
    requires 1 <= k <= 256
    ensures |Encode(Zeros(k) + s)| <= 2 + |Encode(s)|
  {
    var z := ZeroRun(s, |s|);
    var t := s[z..];
    assert s == Zeros(z) + t;
    ZerosJoin(k, z, t);
    EncodeZeros(z, t);
    EncodeZeros(k + z, t);
    PairsGrow(k, z);
  }

  /** Among all strings that decode to `s`, the encoder's is a shortest one. */
  lemma {:induction false} EncodeIsShortest(w: seq<Byte>)
    requires Decode(w).Some?
    ensures |Encode(Decode(w).value)| <= |w|
    decreases |w|
  {
    if w == [] {
    } else if w[0] != 0 {
      EncodeIsShortest(w[1..]);
      var s := Decode(w).value;
      assert s[1..] == Decode(w[1..]).value;
    } else {
      EncodeIsShortest(w[2..]);
      EncodePrependZeros(PairLen(w[1]), Decode(w[2..]).value);
    }
  }
}
