/**
 * The run-length encoder the world builder applies to every chunk buffer
 * (`encode_byte_stream` in `src/world.rs`).
 *
 * The output is a sequence of (count, byte) pairs. A run ends after 255 copies, at the end of
 * the input, or at a byte that differs from the run; in the last case that byte is consumed
 * without being counted or starting a new run, so the encoding is not invertible in general.
 */
module ByteStream {
  import opened Wrappers
  import opened Numeric

  /** `n` copies of `b`. */
  function Copies(n: nat, b: Byte): (s: seq<Byte>)
    ensures |s| == n
    ensures forall k :: 0 <= k < n ==> s[k] == b
  {
    seq(n, _ => b)
  }

  /** Every byte of `s` in positions `lo` .. `hi` - 1 is `b`. */
  predicate AllAre(s: seq<Byte>, lo: nat, hi: nat, b: Byte)
    requires hi <= |s|
  {
    forall k :: lo <= k < hi ==> s[k] == b
  }

  /** The length of the run of `b` starting at position `j` of `s`, capped at `cap`. */
  function PrefixRun(s: seq<Byte>, j: nat, b: Byte, cap: nat): (n: nat)
    requires j <= |s|
    ensures n <= cap && j + n <= |s|
    decreases cap
  {
    if cap == 0 || j == |s| || s[j] != b then 0 else 1 + PrefixRun(s, j + 1, b, cap - 1)
  }

  /** The run is made of `b`, and it stops at the cap, at the end, or before a byte other than `b`. */
  lemma {:induction false} PrefixRunSpec(s: seq<Byte>, j: nat, b: Byte, cap: nat)
    requires j <= |s|
    ensures AllAre(s, j, j + PrefixRun(s, j, b, cap), b)
    ensures PrefixRun(s, j, b, cap) < cap && j + PrefixRun(s, j, b, cap) < |s| ==>
              s[j + PrefixRun(s, j, b, cap)] != b
    decreases cap
  {
    if !(cap == 0 || j == |s| || s[j] != b) {
      PrefixRunSpec(s, j + 1, b, cap - 1);
    }
  }

  /** A run length is determined by the bytes: `m` copies of `b` stopped by the cap, the end, or another byte. */
  lemma PrefixRunIs(s: seq<Byte>, j: nat, b: Byte, cap: nat, m: nat)
    requires m <= cap && j + m <= |s| && AllAre(s, j, j + m, b)
    requires m < cap && j + m < |s| ==> s[j + m] != b
    ensures PrefixRun(s, j, b, cap) == m
  {
    PrefixRunSpec(s, j, b, cap);
  }

  /**
   * The encoding of `s` from position `j`, defined run by run rather than by the encoder's state
   * machine. A run is the longest stretch of copies of its first byte, at most 255 long, emitted
   * as (length, byte). A run that stops short of 255 in front of a different byte also consumes
   * that byte.
   */
  function RleFrom(s: seq<Byte>, j: nat): seq<Byte>
    requires j <= |s|
    decreases |s| - j
  {
    if j == |s| then []
    else
      var n := PrefixRun(s, j, s[j], 255);
      var next := if n == 255 || j + n == |s| then j + n else j + n + 1;
      [n, s[j]] + RleFrom(s, next)
  }

  /** The run-by-run encoding of the whole input. */
  function Rle(s: seq<Byte>): seq<Byte>
  {
    RleFrom(s, 0)
  }

  /** The bytes the encoder consumes from position `j` on without counting them: one per run
      closed by a different byte. */
  function DroppedFrom(s: seq<Byte>, j: nat): nat
    requires j <= |s|
    decreases |s| - j
  {
    if j == |s| then 0
    else
      var n := PrefixRun(s, j, s[j], 255);
      if n == 255 || j + n == |s| then DroppedFrom(s, j + n) else 1 + DroppedFrom(s, j + n + 1)
  }

  /** The bytes of the whole input the encoder drops. */
  function Dropped(s: seq<Byte>): nat
  {
    DroppedFrom(s, 0)
  }

  /** Decoding: each (count, byte) pair expands to `count` copies of `byte`. */
  function Expand(pairs: seq<Byte>): seq<Byte>
    decreases |pairs|
  {
    if |pairs| < 2 then [] else Copies(pairs[0], pairs[1]) + Expand(pairs[2..])
  }

  /** The sum of the counts of a pair stream. */
  function CountSum(pairs: seq<Byte>): nat
    decreases |pairs|
  {
    if |pairs| < 2 then 0 else pairs[0] + CountSum(pairs[2..])
  }

  /** `out` is a stream of (count, value) pairs whose counts are in 1..255 and whose values occur in `input`. */
  predicate IsPairStream(out: seq<Byte>, input: seq<Byte>)
  {
    |out| % 2 == 0 &&
    forall i :: 0 <= i < |out| ==> (i % 2 == 0 ==> 1 <= out[i]) && (i % 2 == 1 ==> out[i] in input)
  }

  /**
   * What the encoder's state means after reading `i` bytes: `run` copies of `current` form the
   * open run, which is always the last `run` bytes read, and the output so far followed by the
   * encoding from the start of that run is `target`, the encoding of the whole input.
   */
  ghost predicate EncoderState(bytes: seq<Byte>, target: seq<Byte>, i: nat, current: Option<Byte>, run: Byte,
                               out: seq<Byte>)
  {
    i <= |bytes| && run <= i &&
    (current.None? ==> run == 0) &&
    (current.Some? ==> 1 <= run < 255 && AllAre(bytes, i - run, i, current.value)) &&
    out + RleFrom(bytes, i - run) == target
  }

  /**
   * `encode_byte_stream`: the state machine keeps the byte of the open run in `current` and its
   * length in `run`; its output is the run-by-run encoding `Rle`.
   */
  method EncodeByteStream(bytes: seq<Byte>) returns (out: seq<Byte>)
    ensures out == Rle(bytes)
  {
    out := [];
    var current: Option<Byte> := None;
    var run: Byte := 0;
    for i := 0 to |bytes|
      invariant EncoderState(bytes, Rle(bytes), i, current, run, out)
    {
      current, run, out := EncodeByte(bytes, Rle(bytes), i, current, run, out);
    }
    if current.Some? {
      RleFromLastRun(bytes, |bytes| - run, current.value);
      out := out + [run, current.value];
    } else {
      assert RleFrom(bytes, |bytes|) == [];
    }
  }

  /** The body of `encode_byte_stream`'s loop for the byte at position `i`. */
  method EncodeByte(bytes: seq<Byte>, ghost target: seq<Byte>, i: nat, current0: Option<Byte>, run0: Byte,
                    out0: seq<Byte>)
    returns (current: Option<Byte>, run: Byte, out: seq<Byte>)
    requires i < |bytes| && EncoderState(bytes, target, i, current0, run0, out0)
    ensures EncoderState(bytes, target, i + 1, current, run, out)
  {
    current, run, out := current0, run0, out0;
    var byte := bytes[i];
    if current == None {
      current := Some(byte);
    }
    if current.Some? {
      var cur := current.value;
      if cur == byte {
        run := run + 1;
      } else {
        out := out + [run, cur];
        current := None;
        run := 0;
        StateClose(bytes, target, i, cur, run0, out0);
      }
      if run == 255 {
        out := out + [run, cur];
        current := None;
        run := 0;
        StateFull(bytes, target, i, cur, out0);
      } else if current.Some? {
        StateExtend(bytes, target, i, current0, cur, run0, out0);
      }
    }
  }

  /** The next byte continues the open run (or opens one), which stays below 255 copies. */
  lemma StateExtend(bytes: seq<Byte>, target: seq<Byte>, i: nat, current0: Option<Byte>, cur: Byte, run0: Byte,
                    out0: seq<Byte>)
    requires i < |bytes| && bytes[i] == cur && (current0 == None || current0 == Some(cur))
    requires EncoderState(bytes, target, i, current0, run0, out0) && run0 + 1 < 255
    ensures EncoderState(bytes, target, i + 1, Some(cur), run0 + 1, out0)
  {
    AllAreExtend(bytes, i - run0, i, cur);
  }

  /** The next byte is the 255th copy: the run is emitted and none is open. */
  lemma StateFull(bytes: seq<Byte>, target: seq<Byte>, i: nat, cur: Byte, out0: seq<Byte>)
    requires i < |bytes| && bytes[i] == cur
    requires EncoderState(bytes, target, i, Some(cur), 254, out0)
    ensures EncoderState(bytes, target, i + 1, None, 0, out0 + [255, cur])
  {
    AllAreExtend(bytes, i - 254, i, cur);
    RleFromFullRun(bytes, i + 1 - 255, cur);
    AppendAssoc(out0, [255, cur], RleFrom(bytes, i + 1));
  }

  /** The next byte differs from the open run: the run is emitted, the byte is dropped and none is open. */
  lemma StateClose(bytes: seq<Byte>, target: seq<Byte>, i: nat, cur: Byte, run0: Byte, out0: seq<Byte>)
    requires i < |bytes| && bytes[i] != cur
    requires EncoderState(bytes, target, i, Some(cur), run0, out0)
    ensures EncoderState(bytes, target, i + 1, None, 0, out0 + [run0, cur])
  {
    RleFromClosingByte(bytes, i - run0, run0, cur);
    AppendAssoc(out0, [run0, cur], RleFrom(bytes, i + 1));
  }

  /** A stretch of copies of `b` grows by one more `b`. */
  lemma AllAreExtend(s: seq<Byte>, lo: nat, hi: nat, b: Byte)
    requires hi < |s| && s[hi] == b
    requires lo <= hi && AllAre(s, lo, hi, b)
    ensures AllAre(s, lo, hi + 1, b)
  {
  }

  lemma AppendAssoc(a: seq<Byte>, b: seq<Byte>, c: seq<Byte>)
    ensures (a + b) + c == a + (b + c)
  {
  }

  /** 255 copies of `b` are emitted as (255, b), and the encoding restarts right after them. */
  lemma RleFromFullRun(s: seq<Byte>, j: nat, b: Byte)
    requires j + 255 <= |s| && AllAre(s, j, j + 255, b)
    ensures RleFrom(s, j) == [255, b] + RleFrom(s, j + 255)
  {
    assert s[j] == b;
    PrefixRunIs(s, j, b, 255, 255);
  }

  /** A final run of 1..255 copies of `b` is emitted as one pair. */
  lemma RleFromLastRun(s: seq<Byte>, j: nat, b: Byte)
    requires j < |s| && |s| - j <= 255 && AllAre(s, j, |s|, b)
    ensures RleFrom(s, j) == [|s| - j, b]
  {
    assert s[j] == b;
    PrefixRunIs(s, j, b, 255, |s| - j);
  }

  /**
   * A byte that differs from an open run of fewer than 255 copies closes the run without being
   * counted: only the run is emitted, and the encoding resumes after that byte.
   */
  lemma RleFromClosingByte(s: seq<Byte>, j: nat, n: nat, b: Byte)
    requires 1 <= n < 255 && j + n < |s| && AllAre(s, j, j + n, b) && s[j + n] != b
    ensures RleFrom(s, j) == [n, b] + RleFrom(s, j + n + 1)
  {
    assert s[j] == b;
    PrefixRunIs(s, j, b, 255, n);
  }

  /** The encoding is a stream of (count, value) pairs, counts in 1..255, values taken from the input. */
  lemma RleIsPairStream(s: seq<Byte>)
    ensures IsPairStream(Rle(s), s)
  {
    RleFromIsPairStream(s, 0);
  }

  lemma {:induction false} RleFromIsPairStream(s: seq<Byte>, j: nat)
    requires j <= |s|
    ensures IsPairStream(RleFrom(s, j), s)
    decreases |s| - j
  {
    if j < |s| {
      var n := PrefixRun(s, j, s[j], 255);
      var next := if n == 255 || j + n == |s| then j + n else j + n + 1;
      var rest := RleFrom(s, next);
      RleFromIsPairStream(s, next);
      var out := RleFrom(s, j);
      assert out == [n, s[j]] + rest;
      forall i | 0 <= i < |out|
        ensures (i % 2 == 0 ==> 1 <= out[i]) && (i % 2 == 1 ==> out[i] in s)
      {
        if i >= 2 {
          assert out[i] == rest[i - 2];
        }
      }
    }
  }

  /** Concatenating runs of the same byte adds their lengths. */
  lemma CopiesSplit(m: nat, n: nat, b: Byte)
    ensures Copies(m + n, b) == Copies(m, b) + Copies(n, b)
  {
  }

  /** (255, b) repeated `k` times. */
  function FullRuns(k: nat, b: Byte): (s: seq<Byte>)
    ensures |s| == 2 * k
  {
    if k == 0 then [] else [255, b] + FullRuns(k - 1, b)
  }

  /** The pairs for a stretch of `m` copies of `b`: full runs of 255, then the rest. */
  function UniformRuns(m: nat, b: Byte): seq<Byte>
    decreases m
  {
    if m == 0 then [] else if m < 255 then [m, b] else [255, b] + UniformRuns(m - 255, b)
  }

  /** A stretch of copies of `b` reaching the end of the input encodes to `UniformRuns`. */
  lemma {:induction false} RleFromUniform(s: seq<Byte>, j: nat, b: Byte)
    requires j <= |s| && AllAre(s, j, |s|, b)
    ensures RleFrom(s, j) == UniformRuns(|s| - j, b)
    decreases |s| - j
  {
    if |s| - j >= 255 {
      var t := j + 255;
      RleFromUniform(s, t, b);
      assert RleFrom(s, t) == UniformRuns(|s| - j - 255, b);
      UniformFullStep(s, j, b);
    } else {
      UniformShort(s, j, b);
    }
  }

  /** Fewer than 255 copies reaching the end of the input encode to at most one pair. */
  lemma UniformShort(s: seq<Byte>, j: nat, b: Byte)
    requires j <= |s| && |s| - j < 255 && AllAre(s, j, |s|, b)
    ensures RleFrom(s, j) == UniformRuns(|s| - j, b)
  {
    if j < |s| {
      RleFromLastRun(s, j, b);
    }
  }

  /** One full run in front of a uniform tail whose encoding is known. */
  lemma UniformFullStep(s: seq<Byte>, j: nat, b: Byte)
    requires j + 255 <= |s| && AllAre(s, j, |s|, b)
    requires RleFrom(s, j + 255) == UniformRuns(|s| - j - 255, b)
    ensures RleFrom(s, j) == UniformRuns(|s| - j, b)
  {
    RleFromFullRun(s, j, b);
  }

  /** Counting the full runs by division. */
  lemma {:induction false} UniformRunsDivMod(m: nat, b: Byte)
    ensures UniformRuns(m, b) == FullRuns(m / 255, b) + (if m % 255 == 0 then [] else [m % 255, b])
    decreases m
  {
    if m >= 255 {
      UniformRunsDivMod(m - 255, b);
      assert (m - 255) / 255 == m / 255 - 1 && (m - 255) % 255 == m % 255;
      AppendAssoc([255, b], FullRuns((m - 255) / 255, b), if m % 255 == 0 then [] else [m % 255, b]);
    }
  }

  /** Expanding the pairs for `m` copies gives the copies back. */
  lemma {:induction false} ExpandUniformRuns(m: nat, b: Byte)
    ensures Expand(UniformRuns(m, b)) == Copies(m, b)
    decreases m
  {
    if m >= 255 {
      ExpandUniformRuns(m - 255, b);
      var rest := UniformRuns(m - 255, b);
      assert ([255, b] + rest)[2..] == rest;
      CopiesSplit(255, m - 255, b);
    } else if m > 0 {
      var pair: seq<Byte> := [m, b];
      assert pair[2..] == [];
    }
  }

  /**
   * `n` copies of one byte encode to n / 255 pairs (255, b), followed by (n mod 255, b) when
   * that remainder is not zero.
   */
  lemma RleOfCopies(n: nat, b: Byte)
    ensures Rle(Copies(n, b)) == FullRuns(n / 255, b) + (if n % 255 == 0 then [] else [n % 255, b])
  {
    RleFromUniform(Copies(n, b), 0, b);
    UniformRunsDivMod(n, b);
  }

  /** Decoding the encoding of `n` copies of one byte gives the `n` copies back. */
  lemma RleOfCopiesRoundTrip(n: nat, b: Byte)
    ensures Expand(Rle(Copies(n, b))) == Copies(n, b)
  {
    RleFromUniform(Copies(n, b), 0, b);
    ExpandUniformRuns(n, b);
  }

  /**
   * The counts add up to the input length minus the dropped bytes, and when no byte is dropped
   * decoding gives the input back.
   */
  lemma RleCounts(s: seq<Byte>)
    ensures CountSum(Rle(s)) + Dropped(s) == |s|
    ensures Dropped(s) == 0 ==> Expand(Rle(s)) == s
  {
    RleFromCounts(s, 0);
  }

  lemma {:induction false} RleFromCounts(s: seq<Byte>, j: nat)
    requires j <= |s|
    ensures CountSum(RleFrom(s, j)) + DroppedFrom(s, j) == |s| - j
    ensures DroppedFrom(s, j) == 0 ==> Expand(RleFrom(s, j)) == s[j..]
    decreases |s| - j
  {
    if j < |s| {
      var n := PrefixRun(s, j, s[j], 255);
      var next := if n == 255 || j + n == |s| then j + n else j + n + 1;
      RleFromCounts(s, next);
      var rest := RleFrom(s, next);
      assert RleFrom(s, j) == [n, s[j]] + rest;
      assert ([n, s[j]] + rest)[2..] == rest;
      if next == j + n {
        PrefixRunSpec(s, j, s[j], 255);
        assert s[j..] == Copies(n, s[j]) + s[j + n..];
      }
    }
  }

  /** The encoder is lossy: from [0, 1] it emits (1, 0) and nothing for the 1. */
  lemma RleIsLossy()
    ensures Rle([0, 1]) == [1, 0]
    ensures Dropped([0, 1]) == 1
    ensures Expand(Rle([0, 1])) == [0]
  {
    var s: seq<Byte> := [0, 1];
    RleFromClosingByte(s, 0, 1, 0);
    PrefixRunIs(s, 0, 0, 255, 1);
    var pair: seq<Byte> := [1, 0];
    assert pair[2..] == [];
  }
}
