/**
 * The nonce generator `randomNonceString` of Photox/SocialLogins.swift.
 *
 * The generator asks the system's secure random source for bytes, sixteen
 * at a time, and keeps a byte `b` only when `b` indexes the alphabet, in
 * which case it contributes the alphabet's `b`-th character (rejection
 * sampling: no byte is reduced modulo the alphabet size). It stops as soon
 * as the requested number of characters is produced; the rest of the last
 * batch is drawn but ignored. A failing draw aborts the attempt.
 *
 * The random source is modelled as a finite stream of draws, consumed in
 * order. The system source never runs out; a stream that does ends in
 * `SourceExhausted`, an outcome that exists only in the model.
 */
module Nonce {
  import opened Common

  /**
   * The alphabet literal of the source, written in the five pieces at which
   * its character runs break. It has 64 characters: the upper-case run stops
   * at `V` and resumes at `X`, so `W` is missing.
   */
  const Charset: string := "0123456789" + "ABCDEFGHIJKLMNOPQRSTUV" + "XYZ" + "abcdefghijklmnopqrstuvwxyz" + "-._"

  /** The number of bytes drawn in one round of the generator loop. */
  const BatchSize: nat := 16

  /** The default nonce length of `randomNonceString`. */
  const DefaultLength: nat := 32

  /** An `OSStatus` other than `errSecSuccess` (0): how `SecRandomCopyBytes` reports a failure. */
  type FailureStatus = s: int | s != 0 witness -1

  /** One one-byte call of `SecRandomCopyBytes`: a byte, or the failing OSStatus. */
  datatype Draw = Got(value: Byte) | Failed(status: FailureStatus)

  /**
   * What a call of the generator produces. `RandomFailure` stands for the
   * source's `fatalError`: the attempt ends and no nonce exists.
   */
  datatype NonceOutcome =
    | Nonce(value: string)
    | RandomFailure(status: FailureStatus)
    | SourceExhausted

  /** The result of drawing one batch of bytes. */
  datatype Batch = Drawn(bytes: seq<Byte>) | DrawFailed(status: FailureStatus) | OutOfDraws

  // ---------------------------------------------------------------- alphabet

  /**
   * The position of `c` in Charset, computed from character ranges, or -1 for
   * a character outside it. It decodes nonce characters independently of
   * the literal.
   */
  function CharIndex(c: char): int {
    if '0' <= c <= '9' then c as int - '0' as int
    else if 'A' <= c <= 'V' then c as int - 'A' as int + 10
    else if 'X' <= c <= 'Z' then c as int - 'X' as int + 32
    else if 'a' <= c <= 'z' then c as int - 'a' as int + 35
    else if c == '-' then 61
    else if c == '.' then 62
    else if c == '_' then 63
    else -1
  }

  /** Charset has 64 characters and CharIndex finds each of them where it stands. */
  lemma CharsetIndexed()
    ensures |Charset| == 64
    ensures forall i :: 0 <= i < |Charset| ==> CharIndex(Charset[i]) == i
  {
    forall i | 0 <= i < 64
      ensures CharIndex(Charset[i]) == i
    {
      assert i in {
        0, 1, 2, 3, 4, 5, 6, 7, 8, 9, 10, 11, 12, 13, 14, 15,
        16, 17, 18, 19, 20, 21, 22, 23, 24, 25, 26, 27, 28, 29, 30, 31,
        32, 33, 34, 35, 36, 37, 38, 39, 40, 41, 42, 43, 44, 45, 46, 47,
        48, 49, 50, 51, 52, 53, 54, 55, 56, 57, 58, 59, 60, 61, 62, 63};
    }
  }

  /** The characters of Charset are pairwise distinct, so byte-to-character is injective. */
  lemma CharsetInjective()
    ensures forall i, j :: 0 <= i < |Charset| && 0 <= j < |Charset| && Charset[i] == Charset[j] ==> i == j
  {
    CharsetIndexed();
  }

  /** Every character of Charset is ASCII, so its UTF-8 encoding is one byte. */
  lemma CharsetIsAscii()
    ensures forall c :: c in Charset ==> c as int < 128
  {
    CharsetIndexed();
    forall c | c in Charset
      ensures c as int < 128
    {
      var i :| 0 <= i < |Charset| && Charset[i] == c;
      assert CharIndex(c) == i;
    }
  }

  // ------------------------------------------------------ rejection sampling

  /** `charset[Int(b)]`: the character an accepted byte stands for. */
  function Symbol(b: Byte): char
    requires b < |Charset|
  {
    Charset[b]
  }

  /** An accepted byte's character decodes back to the byte itself. */
  lemma SymbolDecodes(b: Byte)
    requires b < |Charset|
    ensures CharIndex(Symbol(b)) == b
  {
    CharsetIndexed();
  }

  /** What one drawn byte adds to the nonce: `charset[b]` when `b < charset.count`, nothing otherwise. */
  function Admit(b: Byte): (s: string)
    ensures |s| <= 1 && (s != [] <==> b < |Charset|)
  {
    if b < |Charset| then [Symbol(b)] else []
  }

  /** The characters that the accepted bytes of `bytes` become, in order. */
  function Accept(bytes: seq<Byte>): (s: string)
    ensures |s| <= |bytes|
  {
    if bytes == [] then []
    else Accept(bytes[..|bytes| - 1]) + Admit(bytes[|bytes| - 1])
  }

  /** The accepted bytes themselves: those below the alphabet size, in order. */
  function Kept(bytes: seq<Byte>): (k: seq<Byte>)
    ensures |k| == |Accept(bytes)|
    ensures forall i :: 0 <= i < |k| ==> k[i] < |Charset|
  {
    if bytes == [] then []
    else Kept(bytes[..|bytes| - 1]) + (if bytes[|bytes| - 1] < |Charset| then [bytes[|bytes| - 1]] else [])
  }

  /** Reads a string back as positions in Charset. */
  function Decode(s: string): seq<int> {
    seq(|s|, i requires 0 <= i < |s| => CharIndex(s[i]))
  }

  /** The first `n` elements of `s`, or all of `s` when it is shorter. */
  function Take(s: string, n: nat): string {
    if |s| <= n then s else s[..n]
  }

  lemma {:induction false} AcceptAppend(a: seq<Byte>, b: seq<Byte>)
    ensures Accept(a + b) == Accept(a) + Accept(b)
    decreases |b|
  {
    if b == [] {
      assert a + b == a;
    } else {
      var last := |b| - 1;
      assert (a + b)[..|a + b| - 1] == a + b[..last];
      AcceptAppend(a, b[..last]);
    }
  }

  /**
   * Decoding the accepted characters gives back exactly the accepted bytes:
   * a byte contributes if and only if it is below 64, and then it
   * contributes the character at its own position, not at a reduced one.
   */
  lemma {:induction false} AcceptDecodes(bytes: seq<Byte>)
    ensures Decode(Accept(bytes)) == Kept(bytes)
    decreases |bytes|
  {
    if bytes != [] {
      var init, last := bytes[..|bytes| - 1], bytes[|bytes| - 1];
      AcceptDecodes(init);
      CharsetIndexed();
      assert Decode(Accept(init) + Admit(last)) == Decode(Accept(init)) + Decode(Admit(last));
    }
  }

  // ------------------------------------------------------------ the batches

  /** Drawn bytes placed before those of a batch. */
  function PrependAll(bytes: seq<Byte>, batch: Batch): Batch {
    match batch
    case Drawn(rest) => Drawn(bytes + rest)
    case other => other
  }

  /**
   * The source's `(0 ..< 16).map { ... }` over the stream: `n` draws in
   * order, stopping at the first failing one.
   */
  function Draws(random: seq<Draw>, n: nat): (r: Batch)
    ensures r.Drawn? ==> n <= |random| && |r.bytes| == n
  {
    if n == 0 then Drawn([])
    else if random == [] then OutOfDraws
    else match random[0]
      case Failed(status) => DrawFailed(status)
      case Got(b) => PrependAll([b], Draws(random[1..], n - 1))
  }

  /** The first `|bytes|` draws of the stream succeeded and yielded `bytes`. */
  ghost predicate Yields(random: seq<Draw>, bytes: seq<Byte>) {
    |bytes| <= |random| && forall i {:trigger bytes[i]} :: 0 <= i < |bytes| ==> random[i] == Got(bytes[i])
  }

  ghost predicate AllGot(ds: seq<Draw>) {
    forall i :: 0 <= i < |ds| ==> ds[i].Got?
  }

  /** A batch is drawn exactly when its draws all succeed, and it holds their bytes. */
  lemma {:induction false} DrawsSpec(random: seq<Draw>, n: nat)
    ensures Draws(random, n).Drawn? <==> n <= |random| && AllGot(random[..n])
    ensures Draws(random, n).Drawn? ==> Yields(random, Draws(random, n).bytes)
    decreases n
  {
    if n > 0 && random != [] {
      if n <= |random| {
        assert random[..n][0] == random[0];
      }
      if random[0].Got? {
        DrawsSpec(random[1..], n - 1);
        if n <= |random| {
          assert random[..n] == [random[0]] + random[1..][..n - 1];
        }
      }
    }
  }

  /** A result of the generator with `prefix` produced before it. */
  function Extend(prefix: string, outcome: NonceOutcome): NonceOutcome {
    match outcome
    case Nonce(s) => Nonce(prefix + s)
    case other => other
  }

  /**
   * The generator loop of the source, round by round: with `remaining`
   * characters still needed, draw a batch, keep accepted bytes until no more
   * are needed, and go on with the rest of the stream.
   */
  function Generate(remaining: nat, random: seq<Draw>): (r: NonceOutcome)
    ensures r.Nonce? ==> |r.value| == remaining
    decreases |random|
  {
    if remaining == 0 then Nonce([])
    else match Draws(random, BatchSize)
      case OutOfDraws => SourceExhausted
      case DrawFailed(status) => RandomFailure(status)
      case Drawn(batch) =>
        var kept := Take(Accept(batch), remaining);
        Extend(kept, Generate(remaining - |kept|, random[BatchSize..]))
  }

  // ------------------------------------------------------------- properties

  /** One round of Generate when the first batch is drawn without failure. */
  lemma GenerateRound(n: nat, random: seq<Draw>, batch: seq<Byte>)
    requires n > 0 && Draws(random, BatchSize) == Drawn(batch)
    ensures var kept := Take(Accept(batch), n);
      Generate(n, random) == Extend(kept, Generate(n - |kept|, random[BatchSize..]))
  {
  }

  /** A stream that yields a whole batch first draws that batch. */
  lemma DrawsYielded(random: seq<Draw>, batch: seq<Byte>)
    requires |batch| == BatchSize && Yields(random, batch)
    ensures Draws(random, BatchSize) == Drawn(batch)
  {
    DrawsFromPrefix(random, BatchSize, batch);
    assert batch + [] == batch;
  }

  lemma WholeBatches(k: nat)
    requires k % BatchSize == 0
    ensures (BatchSize + k) % BatchSize == 0
    ensures k < BatchSize ==> k == 0
  {
  }

  lemma WholeBatches'(k: nat)
    requires k % BatchSize == 0 && k > 0
    ensures k >= BatchSize && (k - BatchSize) % BatchSize == 0
  {
  }

  lemma DecodePrefix(bytes: seq<Byte>, n: nat)
    requires n <= |Accept(bytes)|
    ensures Decode(Accept(bytes)[..n]) == Kept(bytes)[..n]
  {
    AcceptDecodes(bytes);
    assert Decode(Accept(bytes)[..n]) == Decode(Accept(bytes))[..n];
  }

  /**
   * `bytes` is what the generator reads when `n` characters are needed:
   * whole batches of successful draws from the start of the stream, ending
   * at the first batch boundary at which `n` bytes have been accepted.
   */
  ghost predicate FirstAccepted(n: nat, random: seq<Draw>, bytes: seq<Byte>) {
    && |bytes| % BatchSize == 0
    && Yields(random, bytes)
    && |Accept(bytes)| >= n
    && (|bytes| >= BatchSize ==> |Accept(bytes[..|bytes| - BatchSize])| < n)
  }

  /** A first batch that already holds `n` accepted bytes is all the generator reads. */
  lemma FirstAcceptedOne(n: nat, random: seq<Draw>, batch: seq<Byte>)
    requires Draws(random, BatchSize) == Drawn(batch) && 0 < n <= |Accept(batch)|
    ensures FirstAccepted(n, random, batch)
  {
    DrawsSpec(random, BatchSize);
    assert batch[..|batch| - BatchSize] == [];
  }

  lemma YieldsAppend(random: seq<Draw>, batch: seq<Byte>, later: seq<Byte>)
    requires |batch| == BatchSize && Yields(random, batch) && Yields(random[BatchSize..], later)
    ensures Yields(random, batch + later)
  {
    forall i | 0 <= i < |batch + later|
      ensures random[i] == Got((batch + later)[i])
    {
      if i >= BatchSize {
        assert random[BatchSize..][i - BatchSize] == Got(later[i - BatchSize]);
      }
    }
  }

  lemma YieldsSplit(random: seq<Draw>, bytes: seq<Byte>)
    requires BatchSize <= |bytes| && Yields(random, bytes)
    ensures Yields(random, bytes[..BatchSize]) && Yields(random[BatchSize..], bytes[BatchSize..])
  {
    forall i | 0 <= i < |bytes| - BatchSize
      ensures random[BatchSize..][i] == Got(bytes[BatchSize..][i])
    {
      assert random[BatchSize + i] == Got(bytes[BatchSize + i]);
    }
  }

  /** The bytes before the last batch of `batch + later`. */
  lemma LastBatchOff(batch: seq<Byte>, later: seq<Byte>)
    requires |batch| == BatchSize && |later| % BatchSize == 0
    ensures |batch + later| % BatchSize == 0
    ensures |later| >= BatchSize ==>
      |Accept((batch + later)[..|batch + later| - BatchSize])| == |Accept(batch)| + |Accept(later[..|later| - BatchSize])|
    ensures |later| < BatchSize ==> later == [] && (batch + later)[..|batch + later| - BatchSize] == []
  {
    WholeBatches(|later|);
    var bytes := batch + later;
    if |later| >= BatchSize {
      assert bytes[..|bytes| - BatchSize] == batch + later[..|later| - BatchSize];
      AcceptAppend(batch, later[..|later| - BatchSize]);
    }
  }

  lemma AcceptConsPrefix(batch: seq<Byte>, later: seq<Byte>, n: nat)
    requires |Accept(batch)| < n <= |Accept(batch)| + |Accept(later)|
    ensures |Accept(batch + later)| >= n
    ensures Accept(batch + later)[..n] == Accept(batch) + Accept(later)[..n - |Accept(batch)|]
  {
    AcceptAppend(batch, later);
  }

  /** A first batch with fewer than `n` accepted bytes, followed by what the rest of the stream needs. */
  lemma FirstAcceptedCons(n: nat, random: seq<Draw>, batch: seq<Byte>, later: seq<Byte>)
    requires Draws(random, BatchSize) == Drawn(batch) && |Accept(batch)| < n
    requires FirstAccepted(n - |Accept(batch)|, random[BatchSize..], later)
    ensures FirstAccepted(n, random, batch + later)
    ensures Accept(batch + later)[..n] == Accept(batch) + Accept(later)[..n - |Accept(batch)|]
  {
    DrawsSpec(random, BatchSize);
    YieldsAppend(random, batch, later);
    LastBatchOff(batch, later);
    AcceptConsPrefix(batch, later, n);
  }

  /** What the generator reads when `n` characters are needed begins with one successful batch. */
  lemma FirstAcceptedHead(n: nat, random: seq<Draw>, bytes: seq<Byte>)
    requires FirstAccepted(n, random, bytes) && bytes != []
    ensures n > 0 && BatchSize <= |bytes| && Draws(random, BatchSize) == Drawn(bytes[..BatchSize])
  {
    WholeBatches'(|bytes|);
    AcceptAppend([], []);
    YieldsSplit(random, bytes);
    DrawsYielded(random, bytes[..BatchSize]);
  }

  /** Splitting the first batch off what the generator reads. */
  lemma FirstAcceptedUncons(n: nat, random: seq<Draw>, batch: seq<Byte>, later: seq<Byte>)
    requires FirstAccepted(n, random, batch + later) && |batch| == BatchSize
    ensures |Accept(batch)| >= n ==> later == []
    ensures |Accept(batch)| < n ==>
      && FirstAccepted(n - |Accept(batch)|, random[BatchSize..], later)
      && Accept(batch + later)[..n] == Accept(batch) + Accept(later)[..n - |Accept(batch)|]
  {
    var bytes := batch + later;
    assert bytes[..BatchSize] == batch && bytes[BatchSize..] == later;
    WholeBatches'(|bytes|);
    YieldsSplit(random, bytes);
    LastBatchOff(batch, later);
    AcceptAppend(batch, later);
    if |Accept(batch)| < n {
      AcceptConsPrefix(batch, later, n);
    }
  }

  /**
   * A nonce is the first `n` accepted bytes of the stream, in order, mapped
   * through Charset: the generator read whole batches of draws, all of
   * which succeeded and yielded `bytes`, and stopped at the first batch
   * boundary at which `n` bytes had been accepted. Decoded, the nonce is
   * exactly those accepted byte values.
   */
  lemma {:induction false} GenerateIsFirstAccepted(n: nat, random: seq<Draw>) returns (bytes: seq<Byte>)
    requires Generate(n, random).Nonce?
    ensures FirstAccepted(n, random, bytes)
    ensures Generate(n, random).value == Accept(bytes)[..n]
    ensures Decode(Generate(n, random).value) == Kept(bytes)[..n]
    decreases |random|
  {
    if n == 0 {
      bytes := [];
    } else {
      var batch := Draws(random, BatchSize).bytes;
      GenerateRound(n, random, batch);
      var first := Accept(batch);
      if |first| >= n {
        bytes := batch;
        FirstAcceptedOne(n, random, batch);
      } else {
        var later := GenerateIsFirstAccepted(n - |first|, random[BatchSize..]);
        bytes := batch + later;
        FirstAcceptedCons(n, random, batch, later);
      }
    }
    DecodePrefix(bytes, n);
  }

  /**
   * The converse: whenever the stream starts with whole batches `bytes` and
   * the end of `bytes` is the first batch boundary with `n` accepted bytes,
   * the generator returns those bytes' characters, whatever the stream
   * holds after them.
   */
  lemma {:induction false} FirstAcceptedIsGenerated(n: nat, random: seq<Draw>, bytes: seq<Byte>)
    requires FirstAccepted(n, random, bytes)
    ensures Generate(n, random) == Nonce(Accept(bytes)[..n])
    decreases |bytes|
  {
    if bytes != [] {
      var batch, later := FirstAcceptedSplit(n, random, bytes);
      var first := Accept(batch);
      if |first| < n {
        FirstAcceptedIsGenerated(n - |first|, random[BatchSize..], later);
        RoundMore(n, random, batch, Accept(later)[..n - |first|]);
      } else {
        RoundDone(n, random, batch);
      }
    } else {
      assert Accept(bytes) == [] && n == 0;
    }
  }

  /** What the generator reads, split into its first round and the rest. */
  lemma FirstAcceptedSplit(n: nat, random: seq<Draw>, bytes: seq<Byte>) returns (batch: seq<Byte>, later: seq<Byte>)
    requires FirstAccepted(n, random, bytes) && bytes != []
    ensures bytes == batch + later
    ensures Draws(random, BatchSize) == Drawn(batch)
    ensures 0 < n && |Accept(batch)| < n ==>
      && FirstAccepted(n - |Accept(batch)|, random[BatchSize..], later)
      && Accept(bytes)[..n] == Accept(batch) + Accept(later)[..n - |Accept(batch)|]
    ensures 0 < n <= |Accept(batch)| ==> Accept(bytes)[..n] == Accept(batch)[..n]
    ensures 0 < n
  {
    FirstAcceptedHead(n, random, bytes);
    batch, later := bytes[..BatchSize], bytes[BatchSize..];
    assert bytes == batch + later;
    FirstAcceptedUncons(n, random, batch, later);
    if |Accept(batch)| >= n {
      assert bytes == batch + [] == batch;
    }
  }

  /** A round after which no more characters are needed. */
  lemma RoundDone(n: nat, random: seq<Draw>, batch: seq<Byte>)
    requires Draws(random, BatchSize) == Drawn(batch) && 0 < n <= |Accept(batch)|
    ensures Generate(n, random) == Nonce(Accept(batch)[..n])
  {
    GenerateRound(n, random, batch);
    assert Take(Accept(batch), n) == Accept(batch)[..n];
    assert Accept(batch)[..n] + [] == Accept(batch)[..n];
  }

  /** A round that leaves characters to be produced from the rest of the stream. */
  lemma RoundMore(n: nat, random: seq<Draw>, batch: seq<Byte>, rest: string)
    requires Draws(random, BatchSize) == Drawn(batch) && |Accept(batch)| < n
    requires Generate(n - |Accept(batch)|, random[BatchSize..]) == Nonce(rest)
    ensures Generate(n, random) == Nonce(Accept(batch) + rest)
  {
    GenerateRound(n, random, batch);
  }

  /** Every accepted character is a character of Charset. */
  lemma {:induction false} AcceptInCharset(bytes: seq<Byte>)
    ensures forall i :: 0 <= i < |Accept(bytes)| ==> Accept(bytes)[i] in Charset
    decreases |bytes|
  {
    if bytes != [] {
      var init, last := bytes[..|bytes| - 1], bytes[|bytes| - 1];
      AcceptInCharset(init);
      assert Accept(bytes) == Accept(init) + Admit(last);
    }
  }

  /** A nonce has exactly the requested length and only Charset characters. */
  lemma GenerateShape(n: nat, random: seq<Draw>)
    requires Generate(n, random).Nonce?
    ensures |Generate(n, random).value| == n
    ensures forall i :: 0 <= i < n ==> Generate(n, random).value[i] in Charset
  {
    var bytes := GenerateIsFirstAccepted(n, random);
    AcceptInCharset(bytes);
  }

  /** Draws after the last batch the generator reads do not affect the nonce. */
  lemma LaterDrawsIgnored(n: nat, random: seq<Draw>, later: seq<Draw>)
    requires Generate(n, random).Nonce?
    ensures Generate(n, random + later) == Generate(n, random)
  {
    var bytes := GenerateIsFirstAccepted(n, random);
    assert forall i :: 0 <= i < |bytes| ==> (random + later)[i] == random[i];
    FirstAcceptedIsGenerated(n, random + later, bytes);
  }

  lemma {:induction false} AcceptSplit(bytes: seq<Byte>, k: nat)
    requires k <= |bytes|
    ensures Accept(bytes) == Accept(bytes[..k]) + Accept(bytes[k..])
  {
    assert bytes == bytes[..k] + bytes[k..];
    AcceptAppend(bytes[..k], bytes[k..]);
  }

  /** Fewer bytes are accepted from a shorter prefix. */
  lemma {:induction false} AcceptMonotone(bytes: seq<Byte>, k: nat, m: nat)
    requires k <= m <= |bytes|
    ensures |Accept(bytes[..k])| <= |Accept(bytes[..m])|
  {
    AcceptSplit(bytes[..m], k);
    assert bytes[..m][..k] == bytes[..k];
  }

  /** The byte completing the `n` needed characters lies in the last round read. */
  lemma {:induction false} NeededInLastRound(n: nat, bytes: seq<Byte>, k: nat)
    requires BatchSize <= |bytes| && k <= |bytes|
    requires |Accept(bytes[..k])| == n && |Accept(bytes[..|bytes| - BatchSize])| < n
    ensures |bytes| - BatchSize < k
  {
    if k <= |bytes| - BatchSize {
      AcceptMonotone(bytes, k, |bytes| - BatchSize);
    }
  }

  /** Two sequences that agree up to `k` agree up to any `m` below it. */
  lemma SharedPrefix(bytes: seq<Byte>, bytes': seq<Byte>, k: nat, m: nat)
    requires m <= k <= |bytes| && k <= |bytes'| && bytes'[..k] == bytes[..k]
    ensures bytes'[..m] == bytes[..m]
  {
    assert bytes'[..m] == bytes'[..k][..m];
    assert bytes[..m] == bytes[..k][..m];
  }

  /** The accepted text of `bytes` begins with the `n` characters accepted up to `k`. */
  lemma {:induction false} AcceptedUpTo(n: nat, bytes: seq<Byte>, k: nat)
    requires k <= |bytes| && |Accept(bytes[..k])| == n
    ensures n <= |Accept(bytes)| && Accept(bytes)[..n] == Accept(bytes[..k])
  {
    AcceptSplit(bytes, k);
  }

  /**
   * The round boundary at which `n` characters are first reached does not
   * depend on the bytes after the last needed byte `k`.
   */
  lemma {:induction false} BoundaryRest(n: nat, bytes: seq<Byte>, bytes': seq<Byte>, k: nat)
    requires k <= |bytes| && |Accept(bytes[..k])| == n
    requires |bytes| >= BatchSize ==> |Accept(bytes[..|bytes| - BatchSize])| < n
    requires |bytes'| == |bytes| && bytes'[..k] == bytes[..k]
    ensures |bytes'| >= BatchSize ==> |Accept(bytes'[..|bytes'| - BatchSize])| < n
  {
    if BatchSize <= |bytes| {
      var m := |bytes| - BatchSize;
      NeededInLastRound(n, bytes, k);
      SharedPrefix(bytes, bytes', k, m);
    }
  }

  /**
   * Replacing what the generator reads after the last needed byte `k` by
   * other successful draws leaves it reading the same rounds, with the same
   * first `n` accepted characters.
   */
  lemma {:induction false} FirstAcceptedRest(n: nat, random: seq<Draw>, random': seq<Draw>, bytes: seq<Byte>, bytes': seq<Byte>, k: nat)
    requires FirstAccepted(n, random, bytes) && k <= |bytes| && |Accept(bytes[..k])| == n
    requires |bytes'| == |bytes| && bytes'[..k] == bytes[..k] && Yields(random', bytes')
    ensures FirstAccepted(n, random', bytes')
    ensures Accept(bytes')[..n] == Accept(bytes)[..n]
  {
    AcceptedUpTo(n, bytes, k);
    AcceptedUpTo(n, bytes', k);
    BoundaryRest(n, bytes, bytes', k);
  }

  /**
   * The bytes of the last round after the last needed one do not affect the
   * nonce: another stream that agrees up to that byte, and also yields a
   * whole round there, gives the same nonce.
   */
  lemma {:induction false} UnusedRestIgnored(n: nat, random: seq<Draw>, random': seq<Draw>, bytes: seq<Byte>, bytes': seq<Byte>, k: nat)
    requires FirstAccepted(n, random, bytes) && k <= |bytes| && |Accept(bytes[..k])| == n
    requires |bytes'| == |bytes| && bytes'[..k] == bytes[..k] && Yields(random', bytes')
    ensures Generate(n, random') == Generate(n, random)
  {
    FirstAcceptedRest(n, random, random', bytes, bytes', k);
    FirstAcceptedIsGenerated(n, random, bytes);
    FirstAcceptedIsGenerated(n, random', bytes');
  }

  lemma {:induction false} DrawsFailure(random: seq<Draw>, n: nat) returns (i: nat)
    requires Draws(random, n).DrawFailed?
    ensures i < n && i < |random| && random[i] == Failed(Draws(random, n).status)
    ensures AllGot(random[..i])
    decreases n
  {
    if random[0].Failed? {
      i := 0;
    } else {
      var i' := DrawsFailure(random[1..], n - 1);
      i := i' + 1;
      assert random[..i] == [random[0]] + random[1..][..i'];
    }
  }

  /**
   * A failing random source aborts the attempt: the reported status is that
   * of the first failing draw, and every draw before it succeeded.
   */
  lemma {:induction false} RandomFailureIsFirstFailedDraw(n: nat, random: seq<Draw>) returns (i: nat)
    requires Generate(n, random).RandomFailure?
    ensures i < |random| && random[i] == Failed(Generate(n, random).status)
    ensures AllGot(random[..i])
    decreases |random|
  {
    if Draws(random, BatchSize).DrawFailed? {
      i := DrawsFailure(random, BatchSize);
    } else {
      var batch := Draws(random, BatchSize).bytes;
      var kept := Take(Accept(batch), n);
      var rest := random[BatchSize..];
      DrawsSpec(random, BatchSize);
      var i' := RandomFailureIsFirstFailedDraw(n - |kept|, rest);
      i := i' + BatchSize;
      assert random[..i] == random[..BatchSize] + rest[..i'];
    }
  }

  // ------------------------------------------------------ the loop, in place

  lemma PrependAllTwice(a: seq<Byte>, b: seq<Byte>, batch: Batch)
    ensures PrependAll(a, PrependAll(b, batch)) == PrependAll(a + b, batch)
  {
    if batch.Drawn? {
      assert a + (b + batch.bytes) == (a + b) + batch.bytes;
    }
  }

  /** Drawing a batch from a stream that starts with the successful draws `bs`. */
  lemma {:induction false} DrawsFromPrefix(ds: seq<Draw>, n: nat, bs: seq<Byte>)
    requires |bs| <= n && Yields(ds, bs)
    ensures Draws(ds, n) == PrependAll(bs, Draws(ds[|bs|..], n - |bs|))
    decreases |bs|
  {
    if bs == [] {
      assert ds[0..] == ds;
      PrependAllTwice([], [], Draws(ds, n));
    } else {
      var rest := Draws(ds[|bs|..], n - |bs|);
      assert ds[0] == Got(bs[0]);
      forall k | 0 <= k < |bs| - 1
        ensures ds[1..][k] == Got(bs[1..][k])
      {
        assert ds[k + 1] == Got(bs[k + 1]);
      }
      DrawsFromPrefix(ds[1..], n - 1, bs[1..]);
      assert ds[1..][|bs| - 1..] == ds[|bs|..];
      PrependAllTwice([bs[0]], bs[1..], rest);
      assert [bs[0]] + bs[1..] == bs;
    }
  }

  /** One step of the accepting walk: the accepted prefix grows by at most the next byte. */
  lemma {:induction false} TakeAcceptStep(bs: seq<Byte>, i: nat, need: nat)
    requires i < |bs|
    ensures var t := Take(Accept(bs[..i]), need);
      && |t| <= need
      && Take(Accept(bs[..i + 1]), need) ==
        if |t| == need then t else if bs[i] < |Charset| then t + [Symbol(bs[i])] else t
  {
    assert bs[..i + 1][..i] == bs[..i];
    var a := Accept(bs[..i]);
    assert Accept(bs[..i + 1]) == a + Admit(bs[i]);
    if |a| >= need {
      assert (a + Admit(bs[i]))[..need] == a[..need];
    }
  }

  /**
   * One step of the walk in the loop's own terms: with the text `done` and
   * the count `left` reached after `i` bytes, the next byte extends `done`
   * by its character exactly when characters are still needed and it is
   * accepted.
   */
  lemma {:induction false} WalkStep(bs: seq<Byte>, i: nat, need: nat, prefix: string, done: string, left: nat)
    requires i < |bs|
    requires done == prefix + Take(Accept(bs[..i]), need)
    requires left == need - |Take(Accept(bs[..i]), need)|
    ensures prefix + Take(Accept(bs[..i + 1]), need) ==
      if left == 0 then done else if bs[i] < |Charset| then done + [Symbol(bs[i])] else done
    ensures need - |Take(Accept(bs[..i + 1]), need)| ==
      if left == 0 then left else if bs[i] < |Charset| then left - 1 else left
  {
    var t := Take(Accept(bs[..i]), need);
    var t' := Take(Accept(bs[..i + 1]), need);
    TakeAcceptStep(bs, i, need);
    if left == 0 {
      assert t' == t;
    } else if bs[i] < |Charset| {
      assert t' == t + [Symbol(bs[i])];
      assert prefix + t' == done + [Symbol(bs[i])];
    } else {
      assert t' == t;
    }
  }

  /**
   * One round's `(0 ..< 16).map { _ in ... }`: sixteen one-byte draws from
   * position `next` of the stream, stopping at the first failing one (the
   * source's `fatalError`) or where the stream ends.
   */
  method DrawBatch(random: seq<Draw>, next: nat) returns (batch: Batch, after: nat)
    requires next <= |random|
    ensures batch == Draws(random[next..], BatchSize)
    ensures batch.Drawn? ==> after == next + BatchSize <= |random|
  {
    var randoms: seq<Byte> := [];
    after := next;
    while |randoms| < BatchSize
      invariant after == next + |randoms| <= |random| && |randoms| <= BatchSize
      invariant forall k :: 0 <= k < |randoms| ==> random[next + k] == Got(randoms[k])
      decreases BatchSize - |randoms|
    {
      if after == |random| {
        DrawsFromPrefix(random[next..], BatchSize, randoms);
        return OutOfDraws, after;
      }
      match random[after]
      case Failed(status) =>
        DrawsFromPrefix(random[next..], BatchSize, randoms);
        return DrawFailed(status), after;
      case Got(b) =>
        randoms := randoms + [b];
        after := after + 1;
    }
    DrawsFromPrefix(random[next..], BatchSize, randoms);
    assert randoms + [] == randoms;
    batch := Drawn(randoms);
  }

  /**
   * One round's `randoms.forEach { ... }`: while characters are still
   * needed, each byte below the alphabet size appends `charset[b]` and
   * lowers the count; every other byte is skipped.
   */
  method AppendAccepted(randoms: seq<Byte>, result: string, remaining: nat) returns (result': string, remaining': nat)
    ensures result' == result + Take(Accept(randoms), remaining)
    ensures remaining' == remaining - |Take(Accept(randoms), remaining)|
  {
    result', remaining' := result, remaining;
    var i := 0;
    while i < |randoms|
      invariant 0 <= i <= |randoms|
      invariant result' == result + Take(Accept(randoms[..i]), remaining)
      invariant remaining' == remaining - |Take(Accept(randoms[..i]), remaining)|
    {
      WalkStep(randoms, i, remaining, result, result', remaining');
      if remaining' == 0 {
      } else if randoms[i] < |Charset| {
        result' := result' + [Symbol(randoms[i])];
        remaining' := remaining' - 1;
      }
      i := i + 1;
    }
    assert randoms[..i] == randoms;
  }

  /** A round of the loop, seen from the whole computation. */
  lemma {:induction false} ExtendRound(n: nat, random: seq<Draw>, batch: seq<Byte>, prefix: string)
    requires n > 0 && Draws(random, BatchSize) == Drawn(batch)
    ensures var kept := Take(Accept(batch), n);
      Extend(prefix, Generate(n, random)) == Extend(prefix + kept, Generate(n - |kept|, random[BatchSize..]))
  {
    var kept := Take(Accept(batch), n);
    var later := Generate(n - |kept|, random[BatchSize..]);
    GenerateRound(n, random, batch);
    assert Generate(n, random) == Extend(kept, later);
    if later.Nonce? {
      assert (prefix + kept) + later.value == prefix + (kept + later.value);
    }
  }

  /**
   * `randomNonceString(length:)`: rounds of sixteen draws, each walked for
   * accepted bytes, until `length` characters are produced. Its result is
   * Generate's, and a nonce it returns has the requested length over
   * Charset.
   */
  method RandomNonceString(length: int, random: seq<Draw>) returns (outcome: NonceOutcome)
    requires length > 0
    ensures outcome == Generate(length, random)
    ensures outcome.Nonce? ==> |outcome.value| == length
    ensures outcome.Nonce? ==> forall i :: 0 <= i < |outcome.value| ==> outcome.value[i] in Charset
  {
    var result: string := "";
    var remainingLength: nat := length;
    var next := 0;
    while remainingLength > 0
      invariant next <= |random|
      invariant Generate(length, random) == Extend(result, Generate(remainingLength, random[next..]))
      decreases |random| - next
    {
      var batch, after := DrawBatch(random, next);
      match batch
      case OutOfDraws => return SourceExhausted;
      case DrawFailed(status) => return RandomFailure(status);
      case Drawn(randoms) =>
        assert random[next..][BatchSize..] == random[after..];
        ExtendRound(remainingLength, random[next..], randoms, result);
        result, remainingLength := AppendAccepted(randoms, result, remainingLength);
        next := after;
    }
    outcome := Nonce(result);
    GenerateShape(length, random);
  }
}
