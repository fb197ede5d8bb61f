/** ULID generation: base-32 encoding whose text order is the numeric order, and a stateful
    generator whose emitted strings only ever grow. */
module Ulid {
  import opened Text

  const CROCKFORD := "0123456789ABCDEFGHJKMNPQRSTVWXYZ"
  const TIMESTAMP_LIMIT := 0x1_0000_0000_0000
  const RANDOM_LIMIT := 0x1_0000_0000_0000_0000_0000

  datatype UlidError = TimestampRange | RandomnessRange
  datatype Result = Ok(text: string) | Err(error: UlidError)

  // ----- encoding -----

  /** `length` base-32 digits of `value`, most significant first. */
  function Encode(value: int, length: nat): (s: string)
    ensures |s| == length
    decreases length
  {
    if length == 0 then [] else Encode(value / 32, length - 1) + [CROCKFORD[value % 32]]
  }

  function Reversed(s: string): (r: string)
    ensures |r| == |s|
  {
    if s == [] then [] else Reversed(s[1..]) + [s[0]]
  }

  lemma {:induction false} ReversedAppend(s: string, c: char)
    ensures Reversed(s + [c]) == [c] + Reversed(s)
  {
    if s == [] {
      assert s + [c] == [c];
    } else {
      assert (s + [c])[1..] == s[1..] + [c];
      ReversedAppend(s[1..], c);
    }
  }

  /** Takes digits from the low end, then reverses. */
  method EncodeBits(value: int, length: nat) returns (s: string)
    ensures s == Encode(value, length)
  {
    var chars := [];
    var rest := value;
    for i := 0 to length
      invariant Encode(value, length) == Encode(rest, length - i) + Reversed(chars)
    {
      ReversedAppend(chars, CROCKFORD[rest % 32]);
      chars := chars + [CROCKFORD[rest % 32]];
      rest := rest / 32;
    }
    s := Reversed(chars);
  }

  function Pow32(n: nat): (p: nat)
    ensures p > 0
  {
    if n == 0 then 1 else 32 * Pow32(n - 1)
  }

  lemma AlphabetAscends(i: nat, j: nat)
    requires i < j < 32
    ensures CROCKFORD[i] < CROCKFORD[j]
  {
  }

  /** Between texts of equal length a difference in the first part decides. */
  lemma {:induction false} TextLeConcat(p: string, q: string, r: string, s: string)
    requires |p| == |q|
    ensures TextLe(p + r, q + s) <==> if p == q then TextLe(r, s) else TextLe(p, q)
  {
    if p == [] {
      assert p + r == r && q + s == s;
    } else {
      assert (p + r)[1..] == p[1..] + r && (q + s)[1..] == q[1..] + s;
      TextLeConcat(p[1..], q[1..], r, s);
      assert p == [p[0]] + p[1..] && q == [q[0]] + q[1..];
    }
  }

  lemma {:induction false} EncodeOrder(a: nat, b: nat, length: nat)
    requires a < Pow32(length) && b < Pow32(length)
    ensures TextLe(Encode(a, length), Encode(b, length)) <==> a <= b
    ensures Encode(a, length) == Encode(b, length) <==> a == b
  {
    if length > 0 {
      EncodeOrder(a / 32, b / 32, length - 1);
      var x, y := CROCKFORD[a % 32], CROCKFORD[b % 32];
      if a % 32 < b % 32 {
        AlphabetAscends(a % 32, b % 32);
      } else if b % 32 < a % 32 {
        AlphabetAscends(b % 32, a % 32);
      }
      TextLeConcat(Encode(a / 32, length - 1), Encode(b / 32, length - 1), [x], [y]);
      assert Encode(a, length)[..length - 1] == Encode(a / 32, length - 1);
      assert Encode(b, length)[..length - 1] == Encode(b / 32, length - 1);
      assert Encode(a, length)[length - 1] == x && Encode(b, length)[length - 1] == y;
    }
  }

  /** Crockford's characters: the digits and the capital letters but for I, L, O and U. */
  predicate IsCrockford(c: char) {
    '0' <= c <= '9' || ('A' <= c <= 'Z' && c != 'I' && c != 'L' && c != 'O' && c != 'U')
  }

  lemma AlphabetOnlyCrockford(i: nat)
    requires i < 32
    ensures IsCrockford(CROCKFORD[i])
  {
  }

  /** The place of a character in the alphabet. */
  function PlaceIn(c: char): int {
    if c <= '9' then c as int - 48
    else if c <= 'H' then c as int - 55
    else if c <= 'K' then c as int - 56
    else if c <= 'N' then c as int - 57
    else if c <= 'T' then c as int - 58
    else c as int - 59
  }

  lemma AllCrockford(c: char)
    requires IsCrockford(c)
    ensures 0 <= PlaceIn(c) < 32 && CROCKFORD[PlaceIn(c)] == c
  {
  }

  /** The alphabet has all of these characters and no others. */
  lemma AlphabetIsCrockford(c: char)
    ensures c in CROCKFORD <==> IsCrockford(c)
  {
    if IsCrockford(c) {
      AllCrockford(c);
    }
    forall i | 0 <= i < |CROCKFORD| ensures IsCrockford(CROCKFORD[i]) {
      AlphabetOnlyCrockford(i);
    }
  }

  /** The value of a digit is its place in the alphabet. */
  ghost function DigitValue(c: char): (v: nat)
    requires c in CROCKFORD
    ensures v < 32 && CROCKFORD[v] == c
  {
    var v: nat :| v < 32 && CROCKFORD[v] == c;
    v
  }

  /** What a text of digits stands for, the most significant first. */
  ghost function Decode(s: string): nat
    requires forall c :: c in s ==> c in CROCKFORD
  {
    if s == [] then 0 else 32 * Decode(s[..|s| - 1]) + DigitValue(s[|s| - 1])
  }

  lemma {:induction false} EncodeUsesAlphabet(value: int, length: nat)
    ensures forall c :: c in Encode(value, length) ==> c in CROCKFORD
    decreases length
  {
    if length > 0 {
      EncodeUsesAlphabet(value / 32, length - 1);
    }
  }

  /** Round trip: a text of enough digits decodes to the number it encodes. */
  lemma {:induction false} DecodeEncode(value: nat, length: nat)
    requires value < Pow32(length)
    ensures forall c :: c in Encode(value, length) ==> c in CROCKFORD
    ensures Decode(Encode(value, length)) == value
  {
    EncodeUsesAlphabet(value, length);
    if length > 0 {
      DecodeEncode(value / 32, length - 1);
      var s := Encode(value, length);
      assert s[..|s| - 1] == Encode(value / 32, length - 1);
      OneDigit(value % 32);
    }
  }

  lemma OneDigit(v: nat)
    requires v < 32
    ensures CROCKFORD[v] in CROCKFORD && DigitValue(CROCKFORD[v]) == v
  {
    var w := DigitValue(CROCKFORD[v]);
    if w < v {
      AlphabetAscends(w, v);
    } else if v < w {
      AlphabetAscends(v, w);
    }
  }

  // ----- one ULID -----

  /** A 48-bit timestamp and 80 random bits. */
  predicate Encodable(timestamp: int, randomness: int) {
    0 <= timestamp < TIMESTAMP_LIMIT && 0 <= randomness < RANDOM_LIMIT
  }

  function MakeUlid(timestamp: int, randomness: int): (r: Result)
    ensures r.Ok? <==> Encodable(timestamp, randomness)
    ensures r.Ok? ==> |r.text| == 26
  {
    if !(0 <= timestamp < TIMESTAMP_LIMIT) then Err(TimestampRange)
    else if !(0 <= randomness < RANDOM_LIMIT) then Err(RandomnessRange)
    else Ok(Encode(timestamp, 10) + Encode(randomness, 16))
  }

  predicate PairBefore(t1: int, r1: int, t2: int, r2: int) {
    t1 < t2 || (t1 == t2 && r1 < r2)
  }

  lemma Limits()
    ensures TIMESTAMP_LIMIT <= Pow32(10) && RANDOM_LIMIT == Pow32(16)
  {
    assert Pow32(4) == 0x10_0000;
    assert Pow32(8) == 0x10_0000 * 0x10_0000;
    assert Pow32(10) == 0x10_0000 * 0x10_0000 * 0x400;
    assert Pow32(12) == 0x10_0000 * 0x10_0000 * 0x10_0000;
    assert Pow32(16) == 0x10_0000 * 0x10_0000 * 0x10_0000 * 0x10_0000;
  }

  /** The text order of ULIDs is exactly the order of (timestamp, randomness); so different
      pairs never share a text. */
  lemma UlidOrder(t1: int, r1: int, t2: int, r2: int)
    requires Encodable(t1, r1) && Encodable(t2, r2)
    ensures TextBefore(MakeUlid(t1, r1).text, MakeUlid(t2, r2).text) <==> PairBefore(t1, r1, t2, r2)
    ensures MakeUlid(t1, r1) == MakeUlid(t2, r2) <==> t1 == t2 && r1 == r2
  {
    hide Encode;
    Limits();
    EncodeOrder(t1, t2, 10);
    EncodeOrder(r1, r2, 16);
    TextLeConcat(Encode(t1, 10), Encode(t2, 10), Encode(r1, 16), Encode(r2, 16));
    assert MakeUlid(t1, r1).text[..10] == Encode(t1, 10) && MakeUlid(t1, r1).text[10..] == Encode(r1, 16);
    assert MakeUlid(t2, r2).text[..10] == Encode(t2, 10) && MakeUlid(t2, r2).text[10..] == Encode(r2, 16);
  }

  /** A ULID can be read back: its first ten characters are the timestamp, the other sixteen the
      random bits; and what is out of range is refused, the timestamp first. */
  lemma UlidReadsBack(timestamp: int, randomness: int)
    ensures MakeUlid(timestamp, randomness) == Err(TimestampRange) <==> timestamp < 0 || timestamp >= 281474976710656
    ensures MakeUlid(timestamp, randomness) == Err(RandomnessRange) <==>
              0 <= timestamp < 281474976710656 && (randomness < 0 || randomness >= 1208925819614629174706176)
    ensures MakeUlid(timestamp, randomness).Ok? ==>
              var text := MakeUlid(timestamp, randomness).text;
              && (forall c :: c in text ==> IsCrockford(c))
              && (forall c :: c in text[..10] || c in text[10..] ==> c in CROCKFORD)
              && Decode(text[..10]) == timestamp && Decode(text[10..]) == randomness
  {
    if MakeUlid(timestamp, randomness).Ok? {
      hide Encode, Decode, IsCrockford;
      Limits();
      var text := MakeUlid(timestamp, randomness).text;
      assert text[..10] == Encode(timestamp, 10) && text[10..] == Encode(randomness, 16);
      DecodeEncode(timestamp, 10);
      DecodeEncode(randomness, 16);
      forall c | c in text ensures IsCrockford(c) {
        assert c in text[..10] || c in text[10..];
        AlphabetIsCrockford(c);
      }
    }
  }

  // ----- the monotonic generator -----

  /** What one call reads: the clock, and ten fresh random bytes as a number. */
  datatype Reading = Reading(clock: int, random: int)

  ghost predicate ValidReading(r: Reading) {
    0 <= r.random < RANDOM_LIMIT
  }

  datatype Generator = Generator(ms: int, random: int)
  {
    ghost predicate Valid() {
      0 <= random < RANDOM_LIMIT
    }

    /** The state after one call.  A later clock starts over from fresh randomness; an equal
        or an earlier one counts up, and a wrap of the count advances the millisecond. */
    function After(r: Reading): Generator {
      if r.clock > ms then Generator(r.clock, r.random)
      else
        var next := (random + 1) % RANDOM_LIMIT;
        Generator(if next == 0 then ms + 1 else ms, next)
    }

    function AfterAll(rs: seq<Reading>): Generator {
      if rs == [] then this else AfterAll(rs[..|rs| - 1]).After(rs[|rs| - 1])
    }

    /** What the k-th call of a run returns. */
    function Emitted(rs: seq<Reading>, k: nat): Result
      requires k < |rs|
    {
      var g := AfterAll(rs[..k + 1]);
      MakeUlid(g.ms, g.random)
    }
  }

  const NEW := Generator(-1, 0)

  class MonotonicULID {
    var lastMs: int
    var lastRandom: int

    function State(): Generator
      reads this
    {
      Generator(lastMs, lastRandom)
    }

    constructor ()
      ensures State() == NEW
    {
      lastMs, lastRandom := -1, 0;
    }

    /** The state moves on even when the ULID cannot be made, as in the source. */
    method NextUlid(r: Reading) returns (ulid: Result)
      requires State().Valid() && ValidReading(r)
      modifies this
      ensures State() == old(State()).After(r) && State().Valid()
      ensures old(lastMs) < r.clock ==> lastMs == r.clock && lastRandom == r.random
      ensures r.clock <= old(lastMs) && old(lastRandom) < 0xFFFF_FFFF_FFFF_FFFF_FFFF ==>
                lastMs == old(lastMs) && lastRandom == old(lastRandom) + 1
      ensures r.clock <= old(lastMs) && old(lastRandom) == 0xFFFF_FFFF_FFFF_FFFF_FFFF ==>
                lastMs == old(lastMs) + 1 && lastRandom == 0
      ensures ulid == MakeUlid(lastMs, lastRandom)
    {
      var ms := r.clock;
      if ms > lastMs {
        lastRandom := r.random;
      } else {
        ms := if ms >= lastMs then ms else lastMs;
        if ms == lastMs {
          lastRandom := (lastRandom + 1) % RANDOM_LIMIT;
          if lastRandom == 0 {
            ms := ms + 1;
          }
        }
      }
      lastMs := ms;
      ulid := MakeUlid(ms, lastRandom);
    }
  }

  ghost predicate ValidRun(rs: seq<Reading>) {
    forall i :: 0 <= i < |rs| ==> ValidReading(rs[i])
  }

  lemma {:induction false} RunStaysValid(g: Generator, rs: seq<Reading>)
    requires g.Valid() && ValidRun(rs)
    ensures g.AfterAll(rs).Valid()
  {
    if rs != [] {
      RunStaysValid(g, rs[..|rs| - 1]);
    }
  }

  /** Every call moves (timestamp, randomness) strictly forward. */
  lemma {:induction false} StateMovesForward(g: Generator, rs: seq<Reading>, i: nat)
    requires g.Valid() && ValidRun(rs) && i < |rs|
    ensures var a, b := g.AfterAll(rs[..i]), g.AfterAll(rs);
            PairBefore(a.ms, a.random, b.ms, b.random)
  {
    var before := rs[..|rs| - 1];
    RunStaysValid(g, before);
    assert before[..i] == rs[..i];
    if i == |before| {
      assert rs[..i] == before;
    } else {
      StateMovesForward(g, before, i);
    }
  }

  /** Strict monotonicity: along any run, whatever the clock does, each ULID that is made is
      greater, as text, than every one made before it. */
  lemma EmittedStrictlyIncrease(g: Generator, rs: seq<Reading>, i: nat, j: nat)
    requires g.Valid() && ValidRun(rs) && i < j < |rs|
    requires g.Emitted(rs, i).Ok? && g.Emitted(rs, j).Ok?
    ensures TextBefore(g.Emitted(rs, i).text, g.Emitted(rs, j).text)
  {
    hide Encode, TextBefore;
    var upTo := rs[..j + 1];
    assert upTo[..i + 1] == rs[..i + 1];
    StateMovesForward(g, upTo, i + 1);
    var a, b := g.AfterAll(rs[..i + 1]), g.AfterAll(upTo);
    UlidOrder(a.ms, a.random, b.ms, b.random);
  }

  // ----- how far the generator can run ahead of the clock -----

  function MaxClock(rs: seq<Reading>): int
    requires rs != []
  {
    var last := rs[|rs| - 1].clock;
    if |rs| == 1 then last
    else
      var before := MaxClock(rs[..|rs| - 1]);
      if last > before then last else before
  }

  lemma {:induction false} MaxClockIsGreatest(rs: seq<Reading>)
    requires rs != []
    ensures forall r :: r in rs ==> r.clock <= MaxClock(rs)
    ensures exists r :: r in rs && r.clock == MaxClock(rs)
  {
    var before, last := rs[..|rs| - 1], rs[|rs| - 1];
    assert rs == before + [last];
    if before != [] {
      MaxClockIsGreatest(before);
    }
  }

  /** The lead over the clock, in units of one random step, grows by at most one a call. */
  lemma {:induction false} LeadGrowsSlowly(rs: seq<Reading>)
    requires ValidRun(rs) && rs != [] && forall r :: r in rs ==> 0 <= r.clock
    ensures var g := NEW.AfterAll(rs);
            && g.Valid() && g.ms >= MaxClock(rs)
            && (g.ms - MaxClock(rs)) * RANDOM_LIMIT + g.random <= RANDOM_LIMIT - 1 + (|rs| - 1)
  {
    var before, last := rs[..|rs| - 1], rs[|rs| - 1];
    assert rs == before + [last];
    assert ValidReading(last) && last in rs;
    if before == [] {
      assert NEW.AfterAll(before) == NEW;
    } else {
      LeadGrowsSlowly(before);
    }
  }

  /** Bounded drift: within 2^80 calls the timestamp is at most one millisecond ahead of the
      greatest clock reading so far, and never behind it. */
  lemma DriftIsAtMostOne(rs: seq<Reading>)
    requires ValidRun(rs) && rs != [] && forall r :: r in rs ==> 0 <= r.clock
    requires |rs| <= RANDOM_LIMIT
    ensures MaxClock(rs) <= NEW.AfterAll(rs).ms <= MaxClock(rs) + 1
  {
    LeadGrowsSlowly(rs);
  }

  /** So with clocks that leave one millisecond of room, no call of such a run ever fails. */
  lemma NeverFails(rs: seq<Reading>, k: nat)
    requires ValidRun(rs) && |rs| <= RANDOM_LIMIT && k < |rs|
    requires forall r :: r in rs ==> 0 <= r.clock < TIMESTAMP_LIMIT - 1
    ensures NEW.Emitted(rs, k).Ok?
  {
    hide Encode;
    var upTo := rs[..k + 1];
    assert forall r :: r in upTo ==> r in rs;
    RunStaysValid(NEW, upTo);
    DriftIsAtMostOne(upTo);
    MaxClockIsGreatest(upTo);
  }

  /** The bound is met: a wrap of the count makes the timestamp lead the clock by one. */
  lemma DriftHappens(clock: nat)
    ensures var rs := [Reading(clock, RANDOM_LIMIT - 1), Reading(clock, 0)];
            ValidRun(rs) && NEW.AfterAll(rs).ms == MaxClock(rs) + 1
  {
    var a, b := Reading(clock, RANDOM_LIMIT - 1), Reading(clock, 0);
    assert [a, b][..1] == [a] && [a][..0] == [];
    assert NEW.AfterAll([a]) == NEW.After(a);
    assert NEW.AfterAll([a, b]) == NEW.After(a).After(b);
  }

  // ----- the sequence generator -----

  class SequenceULID {
    const timestamp: int
    var counter: int

    constructor (timestamp: int, start: int)
      ensures this.timestamp == timestamp && counter == start
    {
      this.timestamp, counter := timestamp, start;
    }

    /** The counter does not move past a value that cannot be encoded. */
    method NextUlid() returns (ulid: Result)
      modifies this
      ensures ulid == MakeUlid(timestamp, old(counter))
      ensures counter == if ulid.Ok? then old(counter) + 1 else old(counter)
    {
      ulid := MakeUlid(timestamp, counter);
      if ulid.Ok? {
        counter := counter + 1;
      }
    }
  }

  /** The counter after `k` calls. */
  function CounterAfter(timestamp: int, start: int, k: nat): int {
    if k == 0 then start
    else
      var c := CounterAfter(timestamp, start, k - 1);
      if MakeUlid(timestamp, c).Ok? then c + 1 else c
  }

  /** A sequence generator counts without a gap until its 80 bits are used up, so the k-th
      ULID is the one for `start + k` and each is greater than those before it. */
  lemma {:induction false} SequenceCounts(timestamp: int, start: int, k: nat)
    requires 0 <= timestamp < TIMESTAMP_LIMIT && 0 <= start
    ensures CounterAfter(timestamp, start, k) ==
            if start + k <= RANDOM_LIMIT then start + k
            else if start <= RANDOM_LIMIT then RANDOM_LIMIT else start
  {
    hide Encode;
    if k > 0 {
      SequenceCounts(timestamp, start, k - 1);
    }
  }

  lemma SequenceStrictlyIncreases(timestamp: int, start: int, i: nat, j: nat)
    requires 0 <= timestamp < TIMESTAMP_LIMIT && 0 <= start && i < j && start + j < RANDOM_LIMIT
    ensures var a := MakeUlid(timestamp, CounterAfter(timestamp, start, i));
            var b := MakeUlid(timestamp, CounterAfter(timestamp, start, j));
            a.Ok? && b.Ok? && TextBefore(a.text, b.text)
  {
    hide Encode;
    SequenceCounts(timestamp, start, i);
    SequenceCounts(timestamp, start, j);
    UlidOrder(timestamp, start + i, timestamp, start + j);
  }
}
