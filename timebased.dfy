/**
 * Time-based UUIDs: `UUID.genV1()` and `UUID.genV6()`, the persistent
 * `UUIDState` they share, `UUID.resetState()` and
 * `UUID._getTimeFieldValues(time)`. The wall clock `new Date().getTime()`
 * is the parameter `now` (milliseconds since 1970-01-01), and each
 * `_getRandomInt(k)` draw is a parameter below 2^k.
 *
 * Both generators add the sub-millisecond counter `tick` to the low end of
 * the timestamp without carrying into the next field. `V1FieldsAsWritten`
 * and `V6FieldsAsWritten` model that arithmetic, with an input where the
 * field overflows its width; `V1Fields` and `V6Fields` count the tick into
 * the 60-bit timestamp as RFC 9562 lays it out, agree with the code
 * whenever no carry arises, and are what the generator methods return.
 */
module TimeBased {
  import opened Arith
  import opened Uuid

  /** `Date.UTC(1582, 9, 15)`: the Gregorian epoch in milliseconds since 1970-01-01. */
  const GregorianEpochMs: int := -12219292800000

  /** A moment (milliseconds since 1970-01-01) no earlier than the Gregorian epoch. */
  predicate InEra(time: int)
  {
    time >= GregorianEpochMs
  }

  /** 100-nanosecond intervals from the Gregorian epoch to `time`. */
  function Ticks(time: int): nat
    requires InEra(time)
  {
    (time - GregorianEpochMs) * 10000
  }

  // _getTimeFieldValues

  datatype TimeFields = TimeFields(low: nat, mid: nat, hi: nat, timestamp: nat)

  /** `UUID._getTimeFieldValues(time)`: `ts & 0xfffffff` keeps the low 28
      bits of the milliseconds, `(ts / 2^32 * 10000) & 0xfffffff` is the
      28 bits above the low 32 of the interval count, split into `mid`
      (`& 0xffff`) and `hi` (`>>> 16`). So `low`, `mid` and `hi` are the low
      32, the next 16 and the next 12 bits of the count of 100-nanosecond
      intervals since the Gregorian epoch. */
  function GetTimeFieldValues(time: int): (tf: TimeFields)
    requires InEra(time)
    ensures tf.low == Ticks(time) % 0x1_0000_0000
    ensures tf.mid == Ticks(time) / 0x1_0000_0000 % 0x1_0000
    ensures tf.hi == Ticks(time) / 0x1_0000_0000_0000 % 0x1000
    ensures tf.timestamp + GregorianEpochMs == time
  {
    var ts: nat := time - GregorianEpochMs;
    var hm := (ts * 10000) / 0x1_0000_0000 % 0x1000_0000;
    LowProduct(ts);
    HighFields(ts * 10000);
    TimeFields(ts % 0x1000_0000 * 10000 % 0x1_0000_0000, hm % 0x1_0000, UShr(hm, 16), ts)
  }

  /** Only the low 28 bits of the milliseconds reach the low 32 bits of the interval count. */
  lemma LowProduct(ts: nat)
    ensures ts % 0x1000_0000 * 10000 % 0x1_0000_0000 == ts * 10000 % 0x1_0000_0000
  {
    var q, r := QuotRem(ts, 0x1000_0000);
    var q2, r2 := QuotRem(r * 10000, 0x1_0000_0000);
    assert ts * 10000 == 0x1_0000_0000 * (625 * q + q2) + r2;
    DivUnique(ts * 10000, 0x1_0000_0000, 625 * q + q2, r2);
  }

  lemma HighFields(t: nat)
    ensures var hm := t / 0x1_0000_0000 % 0x1000_0000;
      && hm % 0x1_0000 == t / 0x1_0000_0000 % 0x1_0000
      && UShr(hm, 16) == t / 0x1_0000_0000_0000 % 0x1000
  {
    PowValues();
    var q := t / 0x1_0000_0000;
    ModMod(q, 0x1_0000, 0x1000);
    ModDiv(q, 0x1_0000, 0x1000);
    DivDiv(t, 0x1_0000_0000, 0x1_0000);
    assert Pow2(16) == 0x1_0000;
  }

  // The clock: timestamp, tick and clock sequence

  datatype Clock = Clock(timestamp: int, tick: nat, sequence: nat)

  /** The bookkeeping at the top of `genV1()` and `genV6()`: a new
      millisecond restarts the tick at `rand(12)` (and a clock that went
      back bumps the sequence); the same millisecond advances the tick by
      `1 + rand(3)` while it is below 9992, and otherwise bumps the sequence;
      the sequence is then masked to 14 bits (`&= 0x3fff`). */
  function NextClock(c: Clock, now: int, r12: nat, r3: nat): (d: Clock)
    ensures d.timestamp == now && d.sequence < 0x4000
  {
    if now != c.timestamp then
      Clock(now, r12, (if now < c.timestamp then c.sequence + 1 else c.sequence) % 0x4000)
    else if c.tick < 9992 then
      Clock(c.timestamp, c.tick + 1 + r3, c.sequence % 0x4000)
    else
      Clock(c.timestamp, c.tick, (c.sequence + 1) % 0x4000)
  }

  /** The tick stays a sub-millisecond fraction (at most 9999 intervals) and the sequence fits 14 bits. */
  predicate ClockOk(c: Clock)
  {
    c.tick <= 9999 && c.sequence < 0x4000
  }

  /** The time the clock stands for, in 100-nanosecond intervals since 1970. */
  function Stamp(c: Clock): int
  {
    c.timestamp * 10000 + c.tick
  }

  /** `NextClock` keeps `ClockOk`. */
  lemma ClockInvariant(c: Clock, now: int, r12: nat, r3: nat)
    requires ClockOk(c) && r12 < 0x1000 && r3 < 8
    ensures ClockOk(NextClock(c, now, r12, r3))
  {
  }

  /** Successive states never repeat: when the wall clock moves forward, or
      stays put with room left in the tick, the stamp grows and the sequence
      is kept; otherwise the sequence moves to its successor modulo 2^14. */
  lemma ClockAdvances(c: Clock, now: int, r12: nat, r3: nat)
    requires ClockOk(c)
    ensures var d := NextClock(c, now, r12, r3);
      && (now > c.timestamp || (now == c.timestamp && c.tick < 9992) ==> Stamp(d) > Stamp(c) && d.sequence == c.sequence)
      && (now < c.timestamp || (now == c.timestamp && c.tick >= 9992) ==> d.sequence == (c.sequence + 1) % 0x4000)
      && (Stamp(d) > Stamp(c) || d.sequence != c.sequence)
  {
    var d := NextClock(c, now, r12, r3);
    if now > c.timestamp {
      assert now * 10000 >= c.timestamp * 10000 + 10000;
    }
  }

  // Clock sequence and node fields

  /** `(sequence >>> 8) | 0x80` and `sequence & 0xff`. */
  function ClockSeqFields(sequence: nat): (nat, nat)
  {
    (Or(UShr(sequence, 8), 0x80), sequence % 0x100)
  }

  /** The variant bits `10` on top of the six high bits of the sequence, and
      the low eight bits after them: together they hold the whole sequence. */
  lemma ClockSeqLayout(sequence: nat)
    requires sequence < 0x4000
    ensures var (cshar, csl) := ClockSeqFields(sequence);
      && cshar == 0x80 + sequence / 0x100 && cshar / 0x40 == 2 && csl < 0x100
      && (cshar % 0x40) * 0x100 + csl == sequence
  {
    var hi := sequence / 0x100;
    assert Pow2(8) == 0x100 && Pow2(6) == 0x40;
    assert UShr(sequence, 8) == hi;
    OrComm(hi, 0x80);
    OrDisjoint(2, 6, hi);
  }

  /** A 48-bit node with the multicast bit (the lowest bit of its first octet) set. */
  predicate NodeOk(node: nat)
  {
    node < 0x1_0000_0000_0000 && node / 0x100_0000_0000 % 2 == 1
  }

  /** `(rand(8) | 1) * 0x10000000000 + rand(40)`: a random 48-bit node
      identifier with the multicast bit set and the other random bits kept. */
  function InitialNode(r8: nat, r40: nat): (node: nat)
    requires r8 < 0x100 && r40 < 0x100_0000_0000
    ensures NodeOk(node)
    ensures node / 0x100_0000_0000 == r8 / 2 * 2 + 1 && node % 0x100_0000_0000 == r40
  {
    var n := Or(r8, 1) * 0x100_0000_0000 + r40;
    OrOne(r8);
    DivUnique(n, 0x100_0000_0000, r8 / 2 * 2 + 1, r40);
    n
  }

  // genV1

  /** The six fields of `genV1()` as written: `tf.low + tick` for `timeLow`,
      `(tf.hi & 0xfff) | 0x1000` (version 1) for `timeHiAndVersion`. Of the
      time fields only `timeLow` can leave its width, and by less than the tick. */
  function V1FieldsAsWritten(c: Clock, node: nat): (f: seq<nat>)
    requires InEra(c.timestamp)
    ensures |f| == 6 && f[5] == node
    ensures f[0] < 0x1_0000_0000 + c.tick && f[1] < 0x1_0000
    ensures 0x1000 <= f[2] < 0x2000 && VersionOf(f[2]) == 1
  {
    var tf := GetTimeFieldValues(c.timestamp);
    var (cshar, csl) := ClockSeqFields(c.sequence);
    SetVersion(tf.hi % 0x1000, 1);
    [tf.low + c.tick, tf.mid, Or(tf.hi % 0x1000, 0x1000), cshar, csl, node]
  }

  /** The six fields of a version 1 UUID whose 60-bit timestamp counts the
      tick: the low 32, middle 16 and high 12 bits of `Ticks + tick`. */
  function V1Fields(c: Clock, node: nat): seq<nat>
    requires InEra(c.timestamp)
  {
    var t := Ticks(c.timestamp) + c.tick;
    var (cshar, csl) := ClockSeqFields(c.sequence);
    [t % 0x1_0000_0000, t / 0x1_0000_0000 % 0x1_0000, Or(t / 0x1_0000_0000_0000 % 0x1000, 0x1000), cshar, csl, node]
  }

  /** Without a carry out of the low 32 bits the code's fields are the
      fields of the full timestamp. */
  lemma V1Agrees(c: Clock, node: nat)
    requires InEra(c.timestamp)
    requires GetTimeFieldValues(c.timestamp).low + c.tick < 0x1_0000_0000
    ensures V1FieldsAsWritten(c, node) == V1Fields(c, node)
  {
    var big := Ticks(c.timestamp);
    CarryFree(big, c.tick);
    var a, b := V1FieldsAsWritten(c, node), V1Fields(c, node);
    V1AsWrittenOf(c, node);
    V1FieldsOf(c, node);
    var tf := GetTimeFieldValues(c.timestamp);
    HiAgrees(tf.hi, big, c.tick);
    var hi, hi' := tf.hi % 0x1000, (big + c.tick) / 0x1_0000_0000_0000 % 0x1000;
    assert Or(hi, 0x1000) == Or(hi', 0x1000);
    assert a[0] == b[0] && a[1] == b[1] && a[2] == b[2];
    SameSeq(a, b);
  }

  lemma HiAgrees(hi: nat, big: nat, tick: nat)
    requires big % 0x1_0000_0000 + tick < 0x1_0000_0000 && hi == big / 0x1_0000_0000_0000 % 0x1000
    ensures hi % 0x1000 == (big + tick) / 0x1_0000_0000_0000 % 0x1000
  {
    CarryFree(big, tick);
  }

  /** Adding less than the room left below the next multiple of 2^32 changes only the low 32 bits. */
  lemma CarryFree(big: nat, tick: nat)
    requires big % 0x1_0000_0000 + tick < 0x1_0000_0000
    ensures (big + tick) % 0x1_0000_0000 == big % 0x1_0000_0000 + tick
    ensures (big + tick) / 0x1_0000_0000 == big / 0x1_0000_0000
    ensures (big + tick) / 0x1_0000_0000_0000 == big / 0x1_0000_0000_0000
  {
    var q, r := QuotRem(big, 0x1_0000_0000);
    DivUnique(big + tick, 0x1_0000_0000, q, r + tick);
    DivDiv(big + tick, 0x1_0000_0000, 0x1_0000);
    DivDiv(big, 0x1_0000_0000, 0x1_0000);
  }

  /** On 2025-10-09 at 09:11:54.759 UTC the low 32 bits of the interval count
      are 2^32 - 1680, so a tick of 1680 makes the code's `timeLow` 2^32: a
      field one bit too wide, while the full timestamp carries into `timeMid`. */
  lemma V1Overflow(sequence: nat, node: nat)
    ensures var c := Clock(1760001114759, 1680, sequence);
      && GetTimeFieldValues(1760001114759).low == 0x1_0000_0000 - 1680
      && V1FieldsAsWritten(c, node)[0] == 0x1_0000_0000
      && !InWidths(V1FieldsAsWritten(c, node))
      && V1FieldsAsWritten(c, node)[1] == 42223
      && V1Fields(c, node)[0] == 0 && V1Fields(c, node)[1] == 42224
  {
    var c := Clock(1760001114759, 1680, sequence);
    assert Ticks(1760001114759) == 139792939147590000;
    OverflowTicks();
    V1AsWrittenOf(c, node);
    V1FieldsOf(c, node);
  }

  /** The interval count at 2025-10-09 09:11:54.759 UTC, before and after a tick of 1680. */
  lemma OverflowTicks()
    ensures 139792939147590000 % 0x1_0000_0000 == 0x1_0000_0000 - 1680
    ensures 139792939147590000 / 0x1_0000_0000 % 0x1_0000 == 42223
    ensures (139792939147590000 + 1680) % 0x1_0000_0000 == 0
    ensures (139792939147590000 + 1680) / 0x1_0000_0000 % 0x1_0000 == 42224
  {
  }

  lemma V1AsWrittenOf(c: Clock, node: nat)
    requires InEra(c.timestamp)
    ensures var tf := GetTimeFieldValues(c.timestamp);
      var f := V1FieldsAsWritten(c, node);
      && |f| == 6 && f[0] == tf.low + c.tick && f[1] == tf.mid && f[2] == Or(tf.hi % 0x1000, 0x1000)
      && f[3] == ClockSeqFields(c.sequence).0 && f[4] == ClockSeqFields(c.sequence).1 && f[5] == node
  {
  }

  /** A version 1 UUID: fields within their widths, version 1, variant `10`,
      the timestamp, clock sequence and node all recoverable from the fields. */
  lemma V1Layout(c: Clock, node: nat)
    requires InEra(c.timestamp) && ClockOk(c) && NodeOk(node)
    ensures var f := V1Fields(c, node);
      && InWidths(f) && VersionOf(f[2]) == 1 && f[3] / 0x40 == 2
      && f[0] + f[1] * 0x1_0000_0000 + (f[2] % 0x1000) * 0x1_0000_0000_0000
         == (Ticks(c.timestamp) + c.tick) % 0x1000_0000_0000_0000
      && (f[3] % 0x40) * 0x100 + f[4] == c.sequence && f[5] == node
  {
    ClockSeqLayout(c.sequence);
    V1HiField(c, node);
    V1FieldsOf(c, node);
    V1Time(c, node);
  }

  /** `timeHiAndVersion` holds version 1 above the top 12 bits of the timestamp. */
  lemma V1HiField(c: Clock, node: nat)
    requires InEra(c.timestamp)
    ensures var f2 := V1Fields(c, node)[2];
      f2 < 0x1_0000 && VersionOf(f2) == 1 && f2 % 0x1000 == (Ticks(c.timestamp) + c.tick) / 0x1_0000_0000_0000 % 0x1000
  {
    var h := (Ticks(c.timestamp) + c.tick) / 0x1_0000_0000_0000 % 0x1000;
    SetVersion(h, 1);
    OrComm(h, 0x1000);
    V1FieldsOf(c, node);
  }

  lemma V1Time(c: Clock, node: nat)
    requires InEra(c.timestamp)
    ensures var f := V1Fields(c, node);
      f[0] + f[1] * 0x1_0000_0000 + (f[2] % 0x1000) * 0x1_0000_0000_0000
      == (Ticks(c.timestamp) + c.tick) % 0x1000_0000_0000_0000
  {
    var t := Ticks(c.timestamp) + c.tick;
    var a, b, h := t % 0x1_0000_0000, t / 0x1_0000_0000 % 0x1_0000, t / 0x1_0000_0000_0000 % 0x1000;
    SetVersion(h, 1);
    V1FieldsOf(c, node);
    V1Timestamp(t);
  }

  lemma V1FieldsOf(c: Clock, node: nat)
    requires InEra(c.timestamp)
    ensures var t := Ticks(c.timestamp) + c.tick;
      var f := V1Fields(c, node);
      && |f| == 6 && f[0] == t % 0x1_0000_0000 && f[1] == t / 0x1_0000_0000 % 0x1_0000
      && f[2] == Or(t / 0x1_0000_0000_0000 % 0x1000, 0x1000)
      && f[3] == ClockSeqFields(c.sequence).0 && f[4] == ClockSeqFields(c.sequence).1 && f[5] == node
  {
  }

  /** `x | (v << 12)` for x below 2^12 and its version nibble. */
  lemma SetVersion(x: nat, v: nat)
    requires x < 0x1000 && v < 16
    ensures Or(x, v * 0x1000) == v * 0x1000 + x
    ensures VersionOf(v * 0x1000 + x) == v && (v * 0x1000 + x) % 0x1000 == x
  {
    assert Pow2(12) == 0x1000;
    OrComm(x, v * 0x1000);
    OrDisjoint(v, 12, x);
    DivUnique(v * 0x1000 + x, 0x1000, v, x);
  }

  lemma V1Timestamp(t: nat)
    ensures t % 0x1_0000_0000 + t / 0x1_0000_0000 % 0x1_0000 * 0x1_0000_0000 + t / 0x1_0000_0000_0000 % 0x1000 * 0x1_0000_0000_0000
            == t % 0x1000_0000_0000_0000
  {
    PowValues();
    assert Pow2(16) == 0x1_0000;
    ModSplit(t, 0x1_0000_0000, 0x1000_0000);
    ModSplit(t / 0x1_0000_0000, 0x1_0000, 0x1000);
    DivDiv(t, 0x1_0000_0000, 0x1_0000);
  }

  // genV6

  /** The three time values of `genV6()` as written: `th` from the
      milliseconds scaled by 10000 / 2^28, and `midlow`, the low 28 bits of
      the interval count plus the tick, split into `midlow >>> 12` and
      `midlow & 0xfff`. `th` and the low 12 bits stay within their widths;
      `midlow` may pass 2^28 by the tick, and then `midlow >>> 12` passes 2^16. */
  function V6TimeAsWritten(c: Clock): (t: (nat, nat, nat))
    requires InEra(c.timestamp)
    ensures t.0 < 0x1_0000_0000 && t.2 < 0x1000
    ensures c.tick < 0x1000_0000 ==> t.1 * 0x1000 + t.2 < 0x1000_0000 + c.tick
  {
    var ts: nat := c.timestamp - GregorianEpochMs;
    var low28 := ts % 0x1000_0000 * 10000 % 0x1000_0000;
    var midlow := low28 + c.tick;
    MidlowSplit(low28, c.tick);
    ((ts * 10000) / 0x1000_0000 % 0x1_0000_0000, UShr(midlow, 12), midlow % 0x1000)
  }

  /** `midlow >>> 12` and `midlow & 0xfff` recompose `midlow` while it fits 32 bits. */
  lemma MidlowSplit(low28: nat, tick: nat)
    requires low28 < 0x1000_0000
    ensures tick < 0x1000_0000 ==> UShr(low28 + tick, 12) * 0x1000 + (low28 + tick) % 0x1000 < 0x1000_0000 + tick
  {
    if tick < 0x1000_0000 {
      var m := low28 + tick;
      PowValues();
      assert UShr(m, 12) == m / 0x1000;
    }
  }

  /** The high 32, middle 16 and low 12 bits of the 60-bit timestamp `Ticks + tick`. */
  function V6Time(c: Clock): (nat, nat, nat)
    requires InEra(c.timestamp)
  {
    var t := Ticks(c.timestamp) + c.tick;
    (t / 0x1000_0000 % 0x1_0000_0000, t / 0x1000 % 0x1_0000, t % 0x1000)
  }

  /** The six fields of `genV6()` as written, with `(midlow & 0xfff) | 0x6000` (version 6). */
  function V6FieldsAsWritten(c: Clock, node: nat): (f: seq<nat>)
    requires InEra(c.timestamp)
    ensures |f| == 6 && f[0] < 0x1_0000_0000 && f[5] == node
    ensures 0x6000 <= f[2] < 0x7000 && VersionOf(f[2]) == 6
  {
    var (th, tm, tl) := V6TimeAsWritten(c);
    var (cshar, csl) := ClockSeqFields(c.sequence);
    SetVersion(tl, 6);
    [th, tm, Or(tl, 0x6000), cshar, csl, node]
  }

  /** The six fields of a version 6 UUID whose 60-bit timestamp counts the
      tick, most significant bits first. */
  function V6Fields(c: Clock, node: nat): seq<nat>
    requires InEra(c.timestamp)
  {
    var (th, tm, tl) := V6Time(c);
    var (cshar, csl) := ClockSeqFields(c.sequence);
    [th, tm, Or(tl, 0x6000), cshar, csl, node]
  }

  /** Without a carry out of the low 28 bits the code's fields are the
      fields of the full timestamp. */
  lemma V6Agrees(c: Clock, node: nat)
    requires InEra(c.timestamp)
    requires Ticks(c.timestamp) % 0x1000_0000 + c.tick < 0x1000_0000
    ensures V6FieldsAsWritten(c, node) == V6Fields(c, node)
  {
    V6ClockAgrees(c);
  }

  lemma V6ClockAgrees(c: Clock)
    requires InEra(c.timestamp)
    requires Ticks(c.timestamp) % 0x1000_0000 + c.tick < 0x1000_0000
    ensures V6TimeAsWritten(c) == V6Time(c)
  {
    V6TimeAgrees(c.timestamp - GregorianEpochMs, c.tick);
  }

  /** The three time fields agree when the tick does not carry out of the low 28 bits. */
  lemma V6TimeAgrees(ts: nat, tick: nat)
    requires ts * 10000 % 0x1000_0000 + tick < 0x1000_0000
    ensures var t := ts * 10000 + tick;
      var midlow := ts % 0x1000_0000 * 10000 % 0x1000_0000 + tick;
      && ts * 10000 / 0x1000_0000 % 0x1_0000_0000 == t / 0x1000_0000 % 0x1_0000_0000
      && UShr(midlow, 12) == t / 0x1000 % 0x1_0000
      && midlow % 0x1000 == t % 0x1000
  {
    var big := ts * 10000;
    var t := big + tick;
    PowValues();
    LowMidlow(ts);
    var q, r := QuotRem(big, 0x1000_0000);
    DivUnique(t, 0x1000_0000, q, r + tick);
    var midlow := r + tick;
    UShrSmall(midlow, 12);
    ModDiv(t, 0x1000, 0x1_0000);
    ModMod(t, 0x1000, 0x1_0000);
  }

  /** `((ts & 0xfffffff) * 10000) & 0xfffffff` is the low 28 bits of the interval count. */
  lemma LowMidlow(ts: nat)
    ensures ts % 0x1000_0000 * 10000 % 0x1000_0000 == ts * 10000 % 0x1000_0000
  {
    var q, r := QuotRem(ts, 0x1000_0000);
    var q2, r2 := QuotRem(r * 10000, 0x1000_0000);
    assert ts * 10000 == 0x1000_0000 * (10000 * q + q2) + r2;
    DivUnique(ts * 10000, 0x1000_0000, 10000 * q + q2, r2);
  }

  /** At the same moment as `V1Overflow`, the low 28 bits of the interval
      count are 2^28 - 1680, so a tick of 1680 makes the code's `timeMid`
      2^16: a field one bit too wide. */
  lemma V6Overflow(sequence: nat, node: nat)
    ensures var c := Clock(1760001114759, 1680, sequence);
      && V6FieldsAsWritten(c, node)[1] == 0x1_0000
      && !InWidths(V6FieldsAsWritten(c, node))
  {
    var ts: nat := 1760001114759 - GregorianEpochMs;
    assert ts == 13979293914759;
    assert ts % 0x1000_0000 * 10000 % 0x1000_0000 == 0x1000_0000 - 1680;
    assert Pow2(12) == 0x1000;
    UShrSmall(0x1000_0000, 12);
  }

  /** A version 6 UUID: fields within their widths, version 6, variant `10`,
      the timestamp (most significant bits first), clock sequence and node
      all recoverable from the fields. */
  lemma V6Layout(c: Clock, node: nat)
    requires InEra(c.timestamp) && ClockOk(c) && NodeOk(node)
    ensures var f := V6Fields(c, node);
      && InWidths(f) && VersionOf(f[2]) == 6 && f[3] / 0x40 == 2
      && f[0] * 0x1000_0000 + f[1] * 0x1000 + f[2] % 0x1000 == (Ticks(c.timestamp) + c.tick) % 0x1000_0000_0000_0000
      && (f[3] % 0x40) * 0x100 + f[4] == c.sequence && f[5] == node
  {
    ClockSeqLayout(c.sequence);
    V6LowField(c, node);
    V6FieldsOf(c, node);
    V6Timestamp(Ticks(c.timestamp) + c.tick);
  }

  /** `timeLowAndVersion` holds version 6 above the low 12 bits of the timestamp. */
  lemma V6LowField(c: Clock, node: nat)
    requires InEra(c.timestamp)
    ensures var f2 := V6Fields(c, node)[2];
      f2 < 0x1_0000 && VersionOf(f2) == 6 && f2 % 0x1000 == (Ticks(c.timestamp) + c.tick) % 0x1000
  {
    var l := (Ticks(c.timestamp) + c.tick) % 0x1000;
    SetVersion(l, 6);
    OrComm(l, 0x6000);
    V6FieldsOf(c, node);
  }

  lemma V6FieldsOf(c: Clock, node: nat)
    requires InEra(c.timestamp)
    ensures var t := Ticks(c.timestamp) + c.tick;
      var f := V6Fields(c, node);
      && |f| == 6 && f[0] == t / 0x1000_0000 % 0x1_0000_0000 && f[1] == t / 0x1000 % 0x1_0000
      && f[2] == Or(t % 0x1000, 0x6000)
      && f[3] == ClockSeqFields(c.sequence).0 && f[4] == ClockSeqFields(c.sequence).1 && f[5] == node
  {
  }

  lemma V6Timestamp(t: nat)
    ensures t / 0x1000_0000 % 0x1_0000_0000 * 0x1000_0000 + t / 0x1000 % 0x1_0000 * 0x1000 + t % 0x1000
            == t % 0x1000_0000_0000_0000
  {
    PowValues();
    ModSplit(t, 0x1000_0000, 0x1_0000_0000);
    ModSplit(t, 0x1000, 0x1_0000);
    ModDiv(t, 0x1000, 0x1_0000);
    DivDiv(t, 0x1000, 0x1_0000);
  }

  // The persistent state

  /** `UUIDState`: the last timestamp, the tick within it, the clock
      sequence and the node identifier. */
  class UUIDState {
    var timestamp: int
    var tick: nat
    var sequence: nat
    var node: nat

    /** `new UUIDState()`: timestamp and tick zero, a random 14-bit clock
        sequence, a random node with the multicast bit set. */
    constructor (r14: nat, r8: nat, r40: nat)
      requires r14 < 0x4000 && r8 < 0x100 && r40 < 0x100_0000_0000
      ensures timestamp == 0 && tick == 0 && sequence == r14 && node == InitialNode(r8, r40)
      ensures Valid()
    {
      timestamp := 0;
      tick := 0;
      sequence := r14;
      node := InitialNode(r8, r40);
    }

    function Current(): Clock
      reads this
    {
      Clock(timestamp, tick, sequence)
    }

    predicate Valid()
      reads this
    {
      InEra(timestamp) && ClockOk(Current()) && NodeOk(node)
    }

    /** The clock update `genV1()` and `genV6()` both begin with. */
    method Advance(now: int, r12: nat, r3: nat)
      modifies this
      ensures Current() == NextClock(old(Current()), now, r12, r3) && node == old(node)
    {
      if now != timestamp {
        if now < timestamp {
          sequence := sequence + 1;
        }
        timestamp := now;
        tick := r12;
      } else if tick < 9992 {
        tick := tick + 1 + r3;
      } else {
        sequence := sequence + 1;
      }
      sequence := sequence % 0x4000;
    }
  }

  /** The static `UUID._state`, created on first use by `genV1()` or
      `genV6()` and replaced by `resetState()`. */
  class Generator {
    var state: UUIDState?

    constructor ()
      ensures state == null
    {
      state := null;
    }

    /** `UUID.resetState()`. */
    method ResetState(r14: nat, r8: nat, r40: nat)
      requires r14 < 0x4000 && r8 < 0x100 && r40 < 0x100_0000_0000
      modifies this
      ensures state != null && fresh(state) && state.Valid()
      ensures state.Current() == Clock(0, 0, r14) && state.node == InitialNode(r8, r40)
    {
      state := new UUIDState(r14, r8, r40);
    }

    /** The state, created from the draws r14, r8 and r40 if there is none yet. */
    method EnsureState(r14: nat, r8: nat, r40: nat) returns (st: UUIDState)
      requires r14 < 0x4000 && r8 < 0x100 && r40 < 0x100_0000_0000
      requires state != null ==> state.Valid()
      modifies this
      ensures st == state && st.Valid()
      ensures old(state) != null ==> st == old(state)
      ensures old(state) == null ==> fresh(st) && st.Current() == Clock(0, 0, r14) && st.node == InitialNode(r8, r40)
    {
      if state == null {
        state := new UUIDState(r14, r8, r40);
      }
      st := state;
    }

    /** `UUID.genV1()` at wall-clock time `now`, with the draws `rand(12)`
        and `rand(3)` of the clock update and, for a first call, the draws
        of `new UUIDState()`. */
    method GenV1(now: int, r12: nat, r3: nat, r14: nat, r8: nat, r40: nat) returns (u: Uuid)
      requires InEra(now) && r12 < 0x1000 && r3 < 8
      requires r14 < 0x4000 && r8 < 0x100 && r40 < 0x100_0000_0000
      requires state != null ==> state.Valid()
      modifies this, state
      ensures state != null && state.Valid()
      ensures old(state) != null ==>
        state == old(state) && state.node == old(state.node) && state.Current() == NextClock(old(state.Current()), now, r12, r3)
      ensures old(state) == null ==>
        fresh(state) && state.node == InitialNode(r8, r40) && state.Current() == NextClock(Clock(0, 0, r14), now, r12, r3)
      ensures u == FromFields(V1Fields(state.Current(), state.node))
      ensures InWidths(u.intFields) && u.version == 1
    {
      var st := EnsureState(r14, r8, r40);
      ghost var c0 := st.Current();
      st.Advance(now, r12, r3);
      ClockInvariant(c0, now, r12, r3);
      V1Layout(st.Current(), st.node);
      u := New(V1Fields(st.Current(), st.node));
    }

    /** `UUID.genV6()`, with the same state handling as `GenV1`. */
    method GenV6(now: int, r12: nat, r3: nat, r14: nat, r8: nat, r40: nat) returns (u: Uuid)
      requires InEra(now) && r12 < 0x1000 && r3 < 8
      requires r14 < 0x4000 && r8 < 0x100 && r40 < 0x100_0000_0000
      requires state != null ==> state.Valid()
      modifies this, state
      ensures state != null && state.Valid()
      ensures old(state) != null ==>
        state == old(state) && state.node == old(state.node) && state.Current() == NextClock(old(state.Current()), now, r12, r3)
      ensures old(state) == null ==>
        fresh(state) && state.node == InitialNode(r8, r40) && state.Current() == NextClock(Clock(0, 0, r14), now, r12, r3)
      ensures u == FromFields(V6Fields(state.Current(), state.node))
      ensures InWidths(u.intFields) && u.version == 6
    {
      var st := EnsureState(r14, r8, r40);
      ghost var c0 := st.Current();
      st.Advance(now, r12, r3);
      ClockInvariant(c0, now, r12, r3);
      V6Layout(st.Current(), st.node);
      u := New(V6Fields(st.Current(), st.node));
    }
  }
}
