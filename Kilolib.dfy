/** The kilobot runtime library as ARGoS runs it: each robot is a process
    whose behaviour calls this library; the library keeps a Mersenne-Twister
    generator, an 8-bit xorshift generator, the tick and transmission
    clocks, and exchanges messages with the simulator through a shared
    state record (tx_state, rx_state and the message slots). */
module Kilolib {
  import opened Errors
  import opened Numerals

  // ---------------------------------------------------------------------
  // Mersenne Twister (MT19937). The state array is int32_t in the source;
  // words are modelled as their 32-bit patterns, which every operation
  // below treats alike except the right shift in the seeding step.
  // ---------------------------------------------------------------------

  const N := 624
  const M := 397
  const MATRIX_A: bv32 := 0x9908_b0df
  const UPPER_MASK: bv32 := 0x8000_0000
  const LOWER_MASK: bv32 := 0x7fff_ffff

  /** The multiply-and-add of the seeding recurrence, modulo 2^32. */
  function Mix(x: bv32, i: nat): bv32
    requires i < N
  {
    1812433253 * x + (i as bv32)
  }

  /** Word i of the seeded state from word i-1, with the logical right
      shift of reference MT19937. */
  function SeedWord(prev: bv32, i: nat): bv32
    requires i < N
  {
    Mix(prev ^ (prev >> 30), i)
  }

  /** `>> 30` on a signed 32-bit word: the sign bit is copied into the
      vacated bits. */
  function ArithmeticShift30(x: bv32): bv32 {
    if x & 0x8000_0000 == 0 then x >> 30 else (x >> 30) | 0xFFFF_FFFC
  }

  /** Word i of the seeded state as the code computes it: the previous word
      is read from an int32_t array, so the shift is arithmetic. */
  function SeedWordAsWritten(prev: bv32, i: nat): bv32
    requires i < N
  {
    Mix(prev ^ ArithmeticShift30(prev), i)
  }

  /** The first n words of the state after seeding with s. */
  function Seeded(s: bv32, n: nat): (r: seq<bv32>)
    requires 1 <= n <= N
    ensures |r| == n && r[0] == s
    ensures forall i :: 1 <= i < n ==> r[i] == SeedWord(r[i - 1], i)
  {
    if n == 1 then [s] else var p := Seeded(s, n - 1); p + [SeedWord(p[n - 2], n - 1)]
  }

  /** Seeding one more word appends the step applied to the last one. */
  lemma SeededStep(s: bv32, n: nat)
    requires 1 <= n < N
    ensures Seeded(s, n + 1) == Seeded(s, n) + [SeedWord(Seeded(s, n)[n - 1], n)]
  {
  }

  /** Writing the next seeded word after a seeded prefix extends the prefix
      by one. */
  lemma SeedOneMore(a: seq<bv32>, b: seq<bv32>, s: bv32, i: nat)
    requires 1 <= i < |a| && i < N && a[..i] == Seeded(s, i)
    requires b == a[i := SeedWord(a[i - 1], i)]
    ensures b[..i + 1] == Seeded(s, i + 1)
  {
    SeededStep(s, i);
    assert b[..i + 1] == a[..i] + [SeedWord(a[i - 1], i)];
  }

  /** The two shifts agree while the previous word's top bit is clear. */
  lemma SeedWordAgreesBelowTopBit(prev: bv32, i: nat)
    requires i < N
    requires prev & 0x8000_0000 == 0
    ensures SeedWordAsWritten(prev, i) == SeedWord(prev, i)
  {
    assert ArithmeticShift30(prev) == prev >> 30;
  }

  /** Seeding with 0x80000000 already gives a different second word from
      the reference generator. */
  lemma SeedingAsWrittenDiffers()
    ensures Seeded(0x8000_0000, 2)[1] == SeedWord(0x8000_0000, 1)
    ensures SeedWordAsWritten(0x8000_0000, 1) != SeedWord(0x8000_0000, 1)
  {
  }

  /** The twist of one word from the words k, k+1 and k+M of the
      sequence. */
  function NewWord(a: bv32, b: bv32, c: bv32): bv32 {
    var y := (a & UPPER_MASK) | (b & LOWER_MASK);
    c ^ (y >> 1) ^ (if y & 1 == 0 then 0 else MATRIX_A)
  }

  /** s followed by k words of the recurrence x[i+N] = f(x[i], x[i+1],
      x[i+M]). */
  function Extend<T>(s: seq<T>, k: nat, f: (T, T, T) -> T): (x: seq<T>)
    requires |s| == N && k <= N
    ensures |x| == N + k
    decreases k
  {
    if k == 0 then s
    else var p := Extend(s, k - 1, f); p + [f(p[k - 1], p[k], p[k - 1 + M])]
  }

  /** x is s followed by N words of the recurrence. */
  ghost predicate Recurs<T>(s: seq<T>, x: seq<T>, f: (T, T, T) -> T) {
    |s| == N && |x| == 2 * N && x[..N] == s
    && forall k :: 0 <= k < N ==> x[N + k] == f(x[k], x[k + 1], x[k + M])
  }

  lemma {:induction false} ExtendPrefix<T>(s: seq<T>, j: nat, k: nat, f: (T, T, T) -> T)
    requires |s| == N && j <= k <= N
    ensures Extend(s, k, f)[..N + j] == Extend(s, j, f)
    decreases k
  {
    if j < k {
      ExtendPrefix(s, j, k - 1, f);
      assert Extend(s, k, f)[..N + k - 1] == Extend(s, k - 1, f);
    }
  }

  /** Word N+k of the extension, from the earlier words. */
  lemma ExtendAt<T>(s: seq<T>, k: nat, f: (T, T, T) -> T)
    requires |s| == N && k < N
    ensures var x := Extend(s, N, f);
      x[N + k] == f(x[k], x[k + 1], x[k + M])
  {
    var x := Extend(s, N, f);
    var p := Extend(s, k, f);
    var q := Extend(s, k + 1, f);
    ExtendPrefix(s, k + 1, N, f);
    ExtendPrefix(s, k, N, f);
    assert q == p + [f(p[k], p[k + 1], p[k + M])];
    assert x[N + k] == q[N + k];
    assert p[k] == x[k] && p[k + 1] == x[k + 1] && p[k + M] == x[k + M];
  }

  /** The full extension satisfies the recurrence. */
  lemma ExtendRecurs<T>(s: seq<T>, f: (T, T, T) -> T)
    requires |s| == N
    ensures Recurs(s, Extend(s, N, f), f)
  {
    var x := Extend(s, N, f);
    ExtendPrefix(s, 0, N, f);
    forall k | 0 <= k < N
      ensures x[N + k] == f(x[k], x[k + 1], x[k + M])
    {
      ExtendAt(s, k, f);
    }
  }

  /** The next N words of the reference MT19937 sequence: what
      regenerating the state must leave in it. */
  function Regenerated(s: seq<bv32>): (t: seq<bv32>)
    requires |s| == N
    ensures |t| == N
  {
    Extend(s, N, NewWord)[N..]
  }

  /** The regenerated state continues the old one by the MT19937
      recurrence x[k+N] = x[k+M] ^ twist(x[k], x[k+1]). */
  lemma MtRecurrence(s: seq<bv32>)
    requires |s| == N
    ensures Recurs(s, s + Regenerated(s), NewWord)
  {
    ExtendRecurs(s, NewWord);
    assert s + Regenerated(s) == Extend(s, N, NewWord);
  }

  /** The three loops that regenerate the state in place, word k replaced
      by f of the words k, k+1 and k+M, the last two read modulo N after
      they were themselves replaced (mt_uniform32 passes NewWord). */
  method Regenerate<T>(a: array<T>, f: (T, T, T) -> T)
    requires a.Length == N
    modifies a
    ensures a[..] == Extend(old(a[..]), N, f)[N..]
  {
    ghost var s := a[..];
    ghost var x := Extend(s, N, f);
    ExtendPrefix(s, 0, N, f);
    var kk := 0;
    while kk < N - M
      invariant 0 <= kk <= N - M
      invariant forall j :: 0 <= j < kk ==> a[j] == x[N + j]
      invariant forall j :: kk <= j < N ==> a[j] == x[j]
    {
      ExtendAt(s, kk, f);
      a[kk] := f(a[kk], a[kk + 1], a[kk + M]);
      kk := kk + 1;
    }
    while kk < N - 1
      invariant N - M <= kk <= N - 1
      invariant forall j :: 0 <= j < kk ==> a[j] == x[N + j]
      invariant forall j :: kk <= j < N ==> a[j] == x[j]
    {
      ExtendAt(s, kk, f);
      a[kk] := f(a[kk], a[kk + 1], a[kk + M - N]);
      kk := kk + 1;
    }
    ExtendAt(s, N - 1, f);
    a[N - 1] := f(a[N - 1], a[0], a[M - 1]);
    assert a[..] == x[N..];
  }

  /** The tempering of a state word into an output. */
  function Temper(w: bv32): bv32 {
    var y1 := w ^ (w >> 11);
    var y2 := y1 ^ ((y1 << 7) & 0x9d2c_5680);
    var y3 := y2 ^ ((y2 << 15) & 0xefc6_0000);
    y3 ^ (y3 >> 18)
  }

  // ---------------------------------------------------------------------
  // The 8-bit software generator.
  // ---------------------------------------------------------------------

  /** One draw of rand_soft: an xorshift of the seed, mixed with the
      accumulator shifted right by two. */
  function Soft(seed: bv8, accumulator: bv8): bv8 {
    var a := seed ^ (seed << 3);
    var b := a ^ (a >> 5);
    b ^ (accumulator >> 2)
  }

  /** The seed a draw came from, given the accumulator it used. */
  function Unsoft(out: bv8, accumulator: bv8): bv8 {
    var b := out ^ (accumulator >> 2);
    var a := b ^ (b >> 5);
    var s := a ^ (a << 3);
    s ^ (s << 6)
  }

  /** For a given accumulator, rand_soft permutes the 256 seeds: Unsoft
      undoes it ... */
  lemma UnsoftSoft(seed: bv8, accumulator: bv8)
    ensures Unsoft(Soft(seed, accumulator), accumulator) == seed
  {
  }

  /** ... and it undoes Unsoft. */
  lemma SoftUnsoft(out: bv8, accumulator: bv8)
    ensures Soft(Unsoft(out, accumulator), accumulator) == out
  {
  }

  // ---------------------------------------------------------------------
  // LED colours packed in one byte.
  // ---------------------------------------------------------------------

  function Rgb(r: bv8, g: bv8, b: bv8): (c: bv8) {
    (r & 3) | ((g & 3) << 2) | ((b & 3) << 4)
  }

  function Red(c: bv8): (r: bv8) { c & 3 }
  function Green(c: bv8): (g: bv8) { (c >> 2) & 3 }
  function Blue(c: bv8): (b: bv8) { (c >> 4) & 3 }

  /** Each channel below 4 is read back from the packed byte. */
  lemma RgbChannels(r: bv8, g: bv8, b: bv8)
    requires r < 4 && g < 4 && b < 4
    ensures Red(Rgb(r, g, b)) == r && Green(Rgb(r, g, b)) == g && Blue(Rgb(r, g, b)) == b
    ensures Rgb(r, g, b) < 64
  {
  }

  /** Every byte below 64 is the packing of its three channels. */
  lemma RgbOfChannels(c: bv8)
    requires c < 64
    ensures Rgb(Red(c), Green(c), Blue(c)) == c
  {
  }

  /** A channel above 3 keeps only its two low bits. */
  lemma RgbMasksChannels(r: bv8, g: bv8, b: bv8)
    ensures Rgb(r, g, b) == Rgb(r & 3, g & 3, b & 3)
  {
  }

  // ---------------------------------------------------------------------
  // Robot identifiers.
  // ---------------------------------------------------------------------

  predicate IsDigit(c: char) {
    '0' <= c <= '9'
  }

  /** The position of the first digit of s from pos on, or |s|. */
  function FirstDigit(s: string, pos: nat := 0): (p: nat)
    requires pos <= |s|
    ensures pos <= p <= |s|
    ensures forall j :: pos <= j < p ==> !IsDigit(s[j])
    ensures p < |s| ==> IsDigit(s[p])
    decreases |s| - pos
  {
    if pos == |s| || IsDigit(s[pos]) then pos else FirstDigit(s, pos + 1)
  }

  /** The longest prefix of s made of digits. */
  function LeadingDigits(s: string): (d: string)
    ensures IsDigits(d) && |d| <= |s| && d == s[..|d|]
    ensures |d| < |s| ==> !IsDigit(s[|d|])
  {
    if |s| == 0 || !IsDigit(s[0]) then "" else [s[0]] + LeadingDigits(s[1..])
  }

  const ULONG_MAX: nat := 0xFFFF_FFFF_FFFF_FFFF

  /** strtoul in base 10 on a string that starts with a digit: the value
      of the leading digits, ULONG_MAX when it does not fit. */
  function Strtoul(s: string): (n: nat)
    ensures n <= ULONG_MAX
  {
    var v := DecimalValue(LeadingDigits(s));
    if v > ULONG_MAX then ULONG_MAX else v
  }

  /** The robot's uid from its ARGoS id: the number that starts at the
      first digit, truncated to 16 bits; 0 when the id has no digit. */
  function KiloUid(id: string): (u: UInt16) {
    var p := FirstDigit(id);
    if p == |id| then 0 else Strtoul(id[p..]) % 0x1_0000
  }

  lemma UidWithoutDigits(id: string)
    requires forall j :: 0 <= j < |id| ==> !IsDigit(id[j])
    ensures KiloUid(id) == 0
  {
  }

  lemma {:induction false} LeadingDigitsOfDigits(s: string)
    requires IsDigits(s)
    ensures LeadingDigits(s) == s
    decreases |s|
  {
    if |s| > 0 {
      LeadingDigitsOfDigits(s[1..]);
      assert [s[0]] + s[1..] == s;
    }
  }

  /** An id made of a digit-free prefix and a number gives that number
      modulo 2^16, or 0xFFFF when the number overflows an unsigned long. */
  lemma UidOfNumberedId(prefix: string, n: nat)
    requires forall j :: 0 <= j < |prefix| ==> !IsDigit(prefix[j])
    ensures KiloUid(prefix + Decimal(n)) == (if n > ULONG_MAX then 0xFFFF else n % 0x1_0000)
  {
    var id := prefix + Decimal(n);
    assert IsDigit(id[|prefix|]);
    assert FirstDigit(id) == |prefix|;
    assert id[|prefix|..] == Decimal(n);
    LeadingDigitsOfDigits(Decimal(n));
    DecimalRoundTrip(n);
    var v := Strtoul(Decimal(n));
    assert v == if n > ULONG_MAX then ULONG_MAX else n;
    var p := FirstDigit(id);
    assert p < |id| && id[p..] == Decimal(n);
    assert KiloUid(id) == Strtoul(id[p..]) % 0x1_0000;
    assert ULONG_MAX % 0x1_0000 == 0xFFFF;
  }

  /** The identifier parse, as a loop over the characters. */
  method ArgosIdToKiloUid(id: string) returns (u: UInt16)
    ensures u == KiloUid(id)
  {
    var pos := 0;
    while pos < |id| && !IsDigit(id[pos])
      invariant pos <= FirstDigit(id)
    {
      pos := pos + 1;
    }
    if pos == |id| {
      return 0;
    }
    u := Strtoul(id[pos..]) % 0x1_0000;
  }

  // ---------------------------------------------------------------------
  // Messages and the communication state shared with the simulator.
  // ---------------------------------------------------------------------

  type Int16 = x: int | -0x8000 <= x < 0x8000

  /** The two signal-strength readings of a received message. */
  datatype Distance = Distance(lowGain: Int16, highGain: Int16)

  /** estimate_distance: the high-gain reading converted to uint8_t, which
      keeps it modulo 256. */
  function EstimateDistance(d: Distance): (r: UInt8)
    ensures (d.highGain - r) % 0x100 == 0
  {
    d.highGain % 0x100
  }

  /** A reading that fits a byte is returned unchanged; a 10-bit reading
      of 256 or more wraps around. */
  lemma EstimateDistanceRange(d: Distance)
    ensures 0 <= d.highGain < 0x100 ==> EstimateDistance(d) == d.highGain
    ensures 0x100 <= d.highGain < 0x200 ==> EstimateDistance(d) == d.highGain - 0x100
  {
  }

  datatype Reception<Msg> = Reception(message: Msg, distance: Distance)

  const KILOBOT_MAX_RX := 4
  const TICKS_PER_SEC := 31

  type UInt8 = x: int | 0 <= x < 0x100
  type UInt16 = x: int | 0 <= x < 0x1_0000
  type UInt32 = x: int | 0 <= x < 0x1_0000_0000

  /** Addition of uint32_t counters, wrapping modulo 2^32. */
  function Plus(a: UInt32, b: UInt32): (r: UInt32)
    ensures r as int == (a + b) % 0x1_0000_0000
  {
    if a + b < 0x1_0000_0000 then a + b else a + b - 0x1_0000_0000
  }

  /** The message slots filled by the simulator in one step. */
  type Inbox<Msg> = s: seq<Reception<Msg>> | |s| <= KILOBOT_MAX_RX witness []

  /** What the simulator writes into the shared state while the robot's
      process is stopped: the messages received (rx_message, rx_state) and
      the transmission state (2 once the pending message went out). */
  datatype Arrival<Msg> = Arrival(inbox: Inbox<Msg>, txState: UInt8)

  /** The communication part of a robot's state. `received` lists, in
      order, the receptions handed to the behaviour's rx callback,
      `txSuccesses` counts the calls of its tx-success callback, and
      `outgoing` is what its tx callback returns (None for NULL). */
  datatype Comms<Msg> = Comms(ticks: UInt32, txClock: UInt32, txState: UInt8, txMessage: Option<Msg>,
                              inbox: Inbox<Msg>, received: seq<Reception<Msg>>, txSuccesses: nat,
                              tickLength: UInt32, txPeriod: UInt16, outgoing: Option<Msg>)

  /** The simulator's writes between two steps. */
  function Resume<Msg>(c: Comms<Msg>, a: Arrival<Msg>): (r: Comms<Msg>) {
    Comms(c.ticks, c.txClock, a.txState, c.txMessage, a.inbox, c.received, c.txSuccesses,
          c.tickLength, c.txPeriod, c.outgoing)
  }

  /** preloop: advance the tick count; acknowledge a sent message by
      clearing tx_state and the transmission clock, or else advance the
      clock; hand every received message to the behaviour, in order, and
      empty the inbox. */
  function PreloopSpec<Msg>(c: Comms<Msg>): (r: Comms<Msg>) {
    var sent := c.txState == 2;
    Comms(Plus(c.ticks, c.tickLength / TICKS_PER_SEC),
          if sent then 0 else Plus(c.txClock, c.tickLength),
          if sent then 0 else c.txState,
          c.txMessage, [], c.received + c.inbox,
          if sent then c.txSuccesses + 1 else c.txSuccesses,
          c.tickLength, c.txPeriod, c.outgoing)
  }

  /** postloop: with nothing pending and the clock past the period, take
      the behaviour's message, if any, and mark it for sending. */
  function PostloopSpec<Msg>(c: Comms<Msg>): (r: Comms<Msg>) {
    if c.txState == 0 && c.txClock > c.txPeriod && c.outgoing.Some? then
      Comms(c.ticks, c.txClock, 1, c.outgoing, c.inbox, c.received, c.txSuccesses,
            c.tickLength, c.txPeriod, c.outgoing)
    else c
  }

  /** Every reception is delivered once: a second preloop with no new
      arrival delivers nothing more. */
  lemma PreloopDeliversOnce<Msg>(c: Comms<Msg>)
    ensures PreloopSpec(c).received == c.received + c.inbox
    ensures PreloopSpec(PreloopSpec(c)).received == PreloopSpec(c).received
  {
  }

  lemma PostloopIdempotent<Msg>(c: Comms<Msg>)
    ensures PostloopSpec(PostloopSpec(c)) == PostloopSpec(c)
  {
  }

  /** postloop starts a transmission exactly when nothing is pending, the
      clock has passed the period and the behaviour offers a message; it
      then holds that message. */
  lemma PostloopSends<Msg>(c: Comms<Msg>)
    requires c.txState != 1
    ensures PostloopSpec(c).txState == 1 <==> c.txState == 0 && c.txClock > c.txPeriod && c.outgoing.Some?
    ensures PostloopSpec(c).txState == 1 ==> PostloopSpec(c).txMessage == c.outgoing
  {
  }

  /** A message acknowledged in preloop restarts the clock, so the same
      step never starts another transmission. */
  lemma AcknowledgeThenWait<Msg>(c: Comms<Msg>)
    requires c.txState == 2
    ensures PreloopSpec(c).txState == 0 && PreloopSpec(c).txClock == 0
    ensures PreloopSpec(c).txSuccesses == c.txSuccesses + 1
    ensures PostloopSpec(PreloopSpec(c)) == PreloopSpec(c)
  {
  }

  /** One step of the robot: the simulator's writes, preloop, then
      postloop (the behaviour's loop() runs between the last two). */
  function Step<Msg>(c: Comms<Msg>, a: Arrival<Msg>): (r: Comms<Msg>) {
    PostloopSpec(PreloopSpec(Resume(c, a)))
  }

  /** n steps, the i-th with arrival world(k + i). */
  function Rounds<Msg>(c: Comms<Msg>, n: nat, world: nat -> Arrival<Msg>, k: nat): (r: Comms<Msg>)
    decreases n
  {
    if n == 0 then c else Rounds(Step(c, world(k)), n - 1, world, k + 1)
  }

  /** The waiting loop of delay with d milliseconds left, the k-th
      suspension next: each pass is stopped, resumed with world(k) and runs
      preloop; it runs postloop and goes on while more than one tick is
      left. */
  function DelayLoop<Msg>(c: Comms<Msg>, d: nat, world: nat -> Arrival<Msg>, k: nat): (r: Comms<Msg>)
    requires c.tickLength > 0
    decreases d
  {
    if d == 0 then c
    else
      var c1 := PreloopSpec(Resume(c, world(k)));
      if d > c.tickLength then DelayLoop(PostloopSpec(c1), d - c.tickLength, world, k + 1)
      else c1
  }

  /** One round of the waiting loop: resume and preloop, then either stop
      or postloop and wait one tick less. */
  lemma DelayLoopUnfold<Msg>(c: Comms<Msg>, d: nat, world: nat -> Arrival<Msg>, k: nat)
    requires c.tickLength > 0 && d > 0
    ensures PostloopSpec(PreloopSpec(Resume(c, world(k)))).tickLength == c.tickLength
    ensures d > c.tickLength ==>
      DelayLoop(c, d, world, k) == DelayLoop(PostloopSpec(PreloopSpec(Resume(c, world(k)))), d - c.tickLength, world, k + 1)
    ensures d <= c.tickLength ==> DelayLoop(c, d, world, k) == PreloopSpec(Resume(c, world(k)))
  {
  }

  /** delay(ms): nothing when ms is shorter than a tick; otherwise postloop,
      then the waiting loop. */
  function DelaySpec<Msg>(c: Comms<Msg>, ms: nat, world: nat -> Arrival<Msg>): (r: Comms<Msg>)
    requires c.tickLength > 0 || ms == 0
  {
    if ms < c.tickLength then c
    else if ms == 0 then PostloopSpec(c)
    else DelayLoop(PostloopSpec(c), ms, world, 0)
  }

  /** Waiting d milliseconds with ticks of t milliseconds, where
      n*t < d <= (n+1)*t, stops the robot n+1 = ceil(d/t) times: n whole
      steps, then one more resume and preloop. */
  lemma {:induction false} DelayRounds<Msg>(c: Comms<Msg>, d: nat, world: nat -> Arrival<Msg>, k: nat, n: nat)
    requires c.tickLength > 0
    requires n * c.tickLength < d <= (n + 1) * c.tickLength
    ensures DelayLoop(c, d, world, k) == PreloopSpec(Resume(Rounds(c, n, world, k), world(k + n)))
    decreases d
  {
    var t := c.tickLength;
    if n > 0 {
      var m: nat := n - 1;
      assert m * t + t == n * t;
      assert (m + 1) * t + t == (n + 1) * t;
      assert d > t;
      var c1 := Step(c, world(k));
      assert c1.tickLength == t;
      DelayRounds(c1, d - t, world, k + 1, m);
      assert DelayLoop(c, d, world, k) == DelayLoop(c1, d - t, world, k + 1);
      assert Rounds(c, n, world, k) == Rounds(c1, m, world, k + 1);
    } else {
      assert d <= t;
      assert DelayLoop(c, d, world, k) == PreloopSpec(Resume(c, world(k)));
    }
  }

  // ---------------------------------------------------------------------
  // The robot process.
  // ---------------------------------------------------------------------

  /** The library's globals for one robot process. The callbacks are the
      behaviour's: the rx callback appends to `received`, the tx-success
      callback increments `txSuccesses`, the tx callback answers
      `outgoing`. */
  class Kilobot<Msg> {
    const mtState: array<bv32>
    var mtIndex: nat
    var seed: bv8
    var accumulator: bv8
    var uid: UInt16
    var ticks: UInt32
    var tickLength: UInt32
    var txPeriod: UInt16
    var txClock: UInt32
    var delay: UInt32
    var txState: UInt8
    var txMessage: Option<Msg>
    var inbox: Inbox<Msg>
    var received: seq<Reception<Msg>>
    var txSuccesses: nat
    var outgoing: Option<Msg>

    /** The communication state, as one value. */
    function Shared(): (c: Comms<Msg>)
      reads this
    {
      Comms(ticks, txClock, txState, txMessage, inbox, received, txSuccesses,
                    tickLength, txPeriod, outgoing)
    }

    /** Start-up of the process for robot `id`, with ticks of `tickLength`
        milliseconds and generator seed `rngSeed`: the globals take their
        initial values, the uid is parsed from the id and the Mersenne
        Twister is seeded. */
    constructor(id: string, tickLength: UInt32, rngSeed: bv32)
      ensures this.tickLength == tickLength && uid == KiloUid(id)
      ensures ticks == 0 && txPeriod == 100 && txClock == 0 && delay == 0
      ensures seed == 0xAA && accumulator == 0
      ensures txState == 0 && txMessage == None && inbox == [] && received == [] && txSuccesses == 0
      ensures outgoing == None
      ensures fresh(mtState) && mtState.Length == N && mtState[..] == Seeded(rngSeed, N) && mtIndex == N
    {
      var u := ArgosIdToKiloUid(id);
      uid := u;
      this.tickLength := tickLength;
      ticks, txPeriod, txClock, delay := 0, 100, 0, 0;
      seed, accumulator := 0xAA, 0;
      txState, txMessage, inbox, received, txSuccesses := 0, None, [], [], 0;
      outgoing := None;
      mtState := new bv32[N];
      mtIndex := N + 1;
      new;
      MtSetSeed(rngSeed);
    }

    /** mt_setseed: word 0 is the seed, each next word follows from the
        previous one; the index ends at N, so the next draw regenerates. */
    method MtSetSeed(s: bv32)
      requires mtState.Length == N
      modifies this, mtState
      ensures mtState[..] == Seeded(s, N) && mtIndex == N
      ensures Shared() == old(Shared()) && uid == old(uid) && delay == old(delay)
      ensures seed == old(seed) && accumulator == old(accumulator)
    {
      mtState[0] := s;
      var i := 1;
      while i < N
        invariant 1 <= i <= N
        invariant mtState[..i] == Seeded(s, i)
        modifies mtState
      {
        ghost var before := mtState[..];
        mtState[i] := SeedWord(mtState[i - 1], i);
        SeedOneMore(before, mtState[..], s, i);
        i := i + 1;
      }
      mtIndex := i;
    }

    /** mt_uniform32: when the N words are used up, regenerate them in
        place; then temper the next word. */
    method MtUniform32() returns (y: bv32)
      requires mtState.Length == N
      modifies this, mtState
      ensures old(mtIndex) >= N ==> mtState[..] == Regenerated(old(mtState[..])) && mtIndex == 1
      ensures old(mtIndex) < N ==> mtState[..] == old(mtState[..]) && mtIndex == old(mtIndex) + 1
      ensures y == Temper(mtState[mtIndex - 1])
      ensures Shared() == old(Shared()) && uid == old(uid) && delay == old(delay)
      ensures seed == old(seed) && accumulator == old(accumulator)
    {
      if mtIndex >= N {
        Regenerate(mtState, NewWord);
        mtIndex := 0;
      }
      y := Temper(mtState[mtIndex]);
      mtIndex := mtIndex + 1;
    }

    /** rand_hard: the low byte of the next Mersenne-Twister draw. */
    method RandHard() returns (r: bv8)
      requires mtState.Length == N
      modifies this, mtState
      ensures old(mtIndex) >= N ==> mtState[..] == Regenerated(old(mtState[..])) && mtIndex == 1
      ensures old(mtIndex) < N ==> mtState[..] == old(mtState[..]) && mtIndex == old(mtIndex) + 1
      ensures r == (Temper(mtState[mtIndex - 1]) & 0xFF) as bv8
      ensures Shared() == old(Shared()) && uid == old(uid) && delay == old(delay)
      ensures seed == old(seed) && accumulator == old(accumulator)
    {
      var y := MtUniform32();
      r := (y & 0xFF) as bv8;
    }

    /** rand_soft: the next 8-bit draw; the accumulator counts draws,
        modulo 256. */
    method RandSoft() returns (r: bv8)
      modifies this
      ensures seed == Soft(old(seed), old(accumulator)) && r == seed
      ensures accumulator == old(accumulator) + 1
      ensures Shared() == old(Shared()) && uid == old(uid) && delay == old(delay) && mtIndex == old(mtIndex)
    {
      r := Soft(seed, accumulator);
      seed, accumulator := r, accumulator + 1;
    }

    method RandSeed(s: bv8)
      modifies this
      ensures seed == s && accumulator == old(accumulator)
      ensures Shared() == old(Shared()) && uid == old(uid) && delay == old(delay) && mtIndex == old(mtIndex)
    {
      seed := s;
    }

    /** The simulator's writes while the process is stopped. */
    method Suspend(a: Arrival<Msg>)
      modifies this
      ensures Shared() == Resume(old(Shared()), a)
      ensures delay == old(delay) && seed == old(seed) && accumulator == old(accumulator)
      ensures uid == old(uid) && mtIndex == old(mtIndex) && tickLength == old(tickLength)
    {
      inbox := a.inbox;
      txState := a.txState;
    }

    /** The messages of the inbox handed to the behaviour in turn, after
        those received before. */
    static method Deliver(received: seq<Reception<Msg>>, inbox: Inbox<Msg>) returns (got: seq<Reception<Msg>>)
      ensures got == received + inbox
    {
      got := received;
      for i := 0 to |inbox|
        invariant got == received + inbox[..i]
      {
        got := got + [inbox[i]];
      }
      assert inbox[..|inbox|] == inbox;
    }

    method Preloop()
      modifies this
      ensures Shared() == PreloopSpec(old(Shared()))
      ensures delay == old(delay) && seed == old(seed) && accumulator == old(accumulator)
      ensures uid == old(uid) && mtIndex == old(mtIndex) && tickLength == old(tickLength)
    {
      var sent := txState == 2;
      var got := Deliver(received, inbox);
      ticks := Plus(ticks, tickLength / TICKS_PER_SEC);
      if sent {
        txClock, txState, txSuccesses := 0, 0, txSuccesses + 1;
      } else {
        txClock := Plus(txClock, tickLength);
      }
      received, inbox := got, [];
    }

    method Postloop()
      modifies this
      ensures Shared() == PostloopSpec(old(Shared()))
      ensures delay == old(delay) && seed == old(seed) && accumulator == old(accumulator)
      ensures uid == old(uid) && mtIndex == old(mtIndex) && tickLength == old(tickLength)
    {
      if txState == 0 && txClock > txPeriod {
        var msg := outgoing;
        if msg.Some? {
          txState := 1;
          txMessage := msg;
        }
      }
    }

    /** delay(ms); world(k) is what the simulator writes during the k-th
        suspension. */
    method Delay(ms: UInt16, world: nat -> Arrival<Msg>)
      requires tickLength > 0 || ms == 0
      modifies this
      ensures Shared() == DelaySpec(old(Shared()), ms, world)
      ensures delay == if ms < old(tickLength) then old(delay) else 0
      ensures seed == old(seed) && accumulator == old(accumulator)
      ensures uid == old(uid) && mtIndex == old(mtIndex)
    {
      if ms < tickLength {
        return;
      }
      delay := ms;
      Postloop();
      var k: nat := 0;
      while delay > 0
        invariant tickLength == old(tickLength)
        invariant delay > 0 ==> tickLength > 0
        invariant delay > 0 ==> DelayLoop(Shared(), delay, world, k) == DelaySpec(old(Shared()), ms, world)
        invariant delay == 0 ==> Shared() == DelaySpec(old(Shared()), ms, world)
        invariant seed == old(seed) && accumulator == old(accumulator)
        invariant uid == old(uid) && mtIndex == old(mtIndex)
        decreases delay
      {
        ghost var c := Shared();
        ghost var d := delay;
        DelayLoopUnfold(c, d, world, k);
        Suspend(world(k));
        Preloop();
        if delay > tickLength {
          delay := delay - tickLength;
          Postloop();
        } else {
          delay := 0;
        }
        k := k + 1;
      }
    }
  }
}
