/** The packed and the printed form of a timestamp.

The packed form is one `u64`: 32 bits of seconds, 8 bits of fraction, 16 bits of counter, 8 bits of
node id. The fields do not overlap, so the shifts and ors of the source are products and sums. */
module HlcCodec {
  import opened Hlc

  const SECONDS_UNIT := 0x1_0000_0000
  const FRACTION_UNIT := 0x100_0000
  const COUNTER_UNIT := 0x100

  type Packed = p: int | 0 <= p < 0x1_0000_0000_0000_0000

  function Seconds(p: Packed): nat { p / SECONDS_UNIT }

  function Fraction(p: Packed): nat { p / FRACTION_UNIT % 0x100 }

  function Counter(p: Packed): Count { p / COUNTER_UNIT % 0x1_0000 }

  function Node(p: Packed): NodeId { p % 0x100 }

  /** The times the seconds field has room for: `new` panics on any other. */
  predicate Fits(t: Stamp) { t.time / 250 < 0x1_0000_0000 }

  /** Only `from_u64` can make a fraction of 250 or more. */
  predicate WellFormed(p: Packed) { Fraction(p) < 250 }

  function Pack(t: Stamp): Packed
    requires Fits(t)
  {
    t.time / 250 * SECONDS_UNIT + t.time % 250 * FRACTION_UNIT + t.counter * COUNTER_UNIT + t.node
  }

  /** The accessors put together: `parts_as_duration`, the counter and the node. */
  function Unpack(p: Packed): Stamp { Stamp(Seconds(p) * 250 + Fraction(p), Counter(p), Node(p)) }

  /** Every `u64` is the sum of its fields. */
  lemma Fields(p: Packed)
    ensures Seconds(p) < 0x1_0000_0000
    ensures p == Seconds(p) * SECONDS_UNIT + Fraction(p) * FRACTION_UNIT + Counter(p) * COUNTER_UNIT + Node(p)
  {
    var a, b := p / COUNTER_UNIT, p / FRACTION_UNIT;
    assert p == a * COUNTER_UNIT + Node(p);
    assert a == b * 0x1_0000 + Counter(p);
    assert b == Seconds(p) * 0x100 + Fraction(p);
  }

  lemma QuotientNode(q: nat, r: nat)
    requires r < 0x100
    ensures (q * 0x100 + r) / 0x100 == q && (q * 0x100 + r) % 0x100 == r
  {
  }

  lemma QuotientCounter(q: nat, r: nat)
    requires r < 0x1_0000
    ensures (q * 0x1_0000 + r) / 0x1_0000 == q && (q * 0x1_0000 + r) % 0x1_0000 == r
  {
  }

  lemma QuotientFraction(q: nat, r: nat)
    requires r < 0x100_0000
    ensures (q * 0x100_0000 + r) / 0x100_0000 == q
  {
  }

  lemma QuotientSeconds(q: nat, r: nat)
    requires r < 0x1_0000_0000
    ensures (q * 0x1_0000_0000 + r) / 0x1_0000_0000 == q
  {
  }

  /** A sum of fields in range has exactly these fields. */
  lemma Unfields(s: nat, f: nat, c: Count, n: NodeId)
    requires s < 0x1_0000_0000 && f < 0x100
    ensures var p := s * SECONDS_UNIT + f * FRACTION_UNIT + c * COUNTER_UNIT + n;
            0 <= p < 0x1_0000_0000_0000_0000
            && Seconds(p) == s && Fraction(p) == f && Counter(p) == c && Node(p) == n
  {
    var b := s * 0x100 + f;
    var a := b * 0x1_0000 + c;
    QuotientNode(a, n);
    QuotientCounter(b, c);
    QuotientFraction(b, c * COUNTER_UNIT + n);
    QuotientNode(s, f);
    QuotientSeconds(s, f * FRACTION_UNIT + c * COUNTER_UNIT + n);
  }

  /** Unpacking inverts packing. */
  lemma UnpackPack(t: Stamp)
    requires Fits(t)
    ensures WellFormed(Pack(t)) && Unpack(Pack(t)) == t
  {
    Unfields(t.time / 250, t.time % 250, t.counter, t.node);
  }

  lemma SplitTime(s: nat, f: nat)
    requires f < 250
    ensures (s * 250 + f) / 250 == s && (s * 250 + f) % 250 == f
  {
  }

  /** Packing inverts unpacking exactly on the well-formed words. */
  lemma PackUnpackIff(p: Packed)
    ensures Fits(Unpack(p)) && Pack(Unpack(p)) == p <==> WellFormed(p)
  {
    if WellFormed(p) {
      Fields(p);
      SplitTime(Seconds(p), Fraction(p));
    } else if Fits(Unpack(p)) {
      UnpackPack(Unpack(p));
    }
  }

  /** Comparing the `u64`s is comparing the tuples, lexicographically. */
  lemma PackKeepsOrder(a: Stamp, b: Stamp)
    requires Fits(a) && Fits(b)
    ensures Pack(a) < Pack(b) <==> a.Less(b)
  {
    var s, s', f, f' := a.time / 250, b.time / 250, a.time % 250, b.time % 250;
    assert a.time == s * 250 + f && b.time == s' * 250 + f';
    assert a.time < b.time <==> s < s' || (s == s' && f < f');
  }

  /** The layout in plain numbers: 32 bits of seconds, 8 of fraction, 16 of counter, 8 of node. */
  lemma Layout(s: nat, f: nat, c: Count, n: NodeId)
    requires s < 4_294_967_296 && f < 250
    ensures Fits(Stamp(s * 250 + f, c, n))
    ensures Pack(Stamp(s * 250 + f, c, n)) == s * 4_294_967_296 + f * 16_777_216 + c * 256 + n
  {
    SplitTime(s, f);
  }
}
