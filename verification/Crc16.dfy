/**
  The beacon checksum: the byte-wise shift register computes the remainder of the message times x^16
  by x^16 + x^12 + x^5 + 1 over GF(2); it is linear, it checks itself, and it sees every short burst of errors.
  Machine words are modelled by their bits, highest first, so a word is also the list of coefficients of a polynomial.
 */
module Crc16 {
  function Zeros(n: nat): (z: seq<bool>)
    ensures |z| == n
  {
    seq(n, _ => false)
  }

  /** Exclusive or, and addition of polynomials. */
  function Plus(a: seq<bool>, b: seq<bool>): (c: seq<bool>)
    requires |a| == |b|
    ensures |c| == |a|
  {
    seq(|a|, i requires 0 <= i < |a| => a[i] != b[i])
  }

  /** uint8_t and uint16_t */
  type Byte = b: seq<bool> | |b| == 8 witness Zeros(8)
  type Word = w: seq<bool> | |w| == 16 witness Zeros(16)

  /** 0x1021 */
  const POLY: Word :=
    [false, false, false, true, false, false, false, false,
     false, false, true, false, false, false, false, true]

  /** x << 1 as a uint16_t */
  function ShiftLeft(x: Word): Word {
    x[1..] + [false]
  }

  /** One round of the inner loop. */
  function Step(r: Word): Word {
    if r[0] then Plus(ShiftLeft(r), POLY) else ShiftLeft(r)
  }

  function Steps(r: Word, n: nat): Word
    decreases n
  {
    if n == 0 then r else Steps(Step(r), n - 1)
  }

  /** (uint16_t)b << 8 */
  function High(b: Byte): Word {
    b + Zeros(8)
  }

  /** One round of the outer loop. */
  function ByteStep(x: Word, b: Byte): Word {
    Steps(Plus(x, High(b)), 8)
  }

  /** The register after data, starting from x. */
  function Feed(x: Word, data: seq<Byte>): Word {
    if data == [] then x else ByteStep(Feed(x, data[..|data| - 1]), data[|data| - 1])
  }

  /** crc16; a null pointer yields 0. */
  method Compute(data: array?<Byte>, size: nat) returns (x: Word)
    requires data != null ==> size <= data.Length
    ensures data == null ==> x == Zeros(16)
    ensures data != null ==> x == Feed(Zeros(16), data[..size])
  {
    x := Zeros(16);
    if data == null {
      return;
    }
    for i := 0 to size
      invariant x == Feed(Zeros(16), data[..i])
    {
      x := AddByte(x, data[i]);
      assert data[..i + 1] == data[..i] + [data[i]];
    }
  }

  /** The body of the outer loop. */
  method AddByte(x: Word, b: Byte) returns (y: Word)
    ensures y == ByteStep(x, b)
  {
    y := Plus(x, High(b));
    ghost var start := y;
    assert ByteStep(x, b) == Steps(start, 8);
    hide Plus, ShiftLeft, ByteStep;
    for j := 0 to 8
      invariant Steps(y, 8 - j) == Steps(start, 8)
    {
      y := if y[0] then Plus(ShiftLeft(y), POLY) else ShiftLeft(y);
    }
  }

  // ---------- polynomials over GF(2), highest power first ----------

  /** x^16 + x^12 + x^5 + 1 */
  const GENERATOR: seq<bool> :=
    [true, false, false, false, true, false, false, false, false,
     false, false, true, false, false, false, false, true]

  /** The product of q and the generator. */
  function TimesGenerator(q: seq<bool>): (p: seq<bool>)
    ensures |p| == |q| + 16
  {
    if q == [] then Zeros(16)
    else
      var k := |q| - 1;
      Plus(TimesGenerator(q[..k]) + [false], Zeros(k) + if q[k] then GENERATOR else Zeros(17))
  }

  /** m times x^16 equals q times the generator plus r. */
  ghost predicate Divides(m: seq<bool>, q: seq<bool>, r: seq<bool>) {
    |r| == 16 && |q| == |m| && Plus(TimesGenerator(q), Zeros(|m|) + r) == m + Zeros(16)
  }

  /** Quotient and remainder are determined by the message. */
  lemma DivisionUnique(m: seq<bool>, q1: seq<bool>, r1: seq<bool>, q2: seq<bool>, r2: seq<bool>)
    requires Divides(m, q1, r1) && Divides(m, q2, r2)
    ensures q1 == q2 && r1 == r2
  {
    QuotientPrefix(m, q1, r1, q2, r2, |m|);
    assert q1 == q1[..|m|] && q2 == q2[..|m|];
    forall i | 0 <= i < 16 ensures r1[i] == r2[i] {
      assert Plus(TimesGenerator(q1), Zeros(|m|) + r1)[|m| + i] == (m + Zeros(16))[|m| + i];
      assert Plus(TimesGenerator(q2), Zeros(|m|) + r2)[|m| + i] == (m + Zeros(16))[|m| + i];
    }
  }

  lemma {:induction false} QuotientPrefix(m: seq<bool>, q1: seq<bool>, r1: seq<bool>, q2: seq<bool>, r2: seq<bool>,
                                          k: nat)
    requires Divides(m, q1, r1) && Divides(m, q2, r2) && k <= |m|
    ensures q1[..k] == q2[..k]
  {
    if k > 0 {
      QuotientPrefix(m, q1, r1, q2, r2, k - 1);
      LeadingTerm(q1, k - 1);
      LeadingTerm(q2, k - 1);
      assert Plus(TimesGenerator(q1), Zeros(|m|) + r1)[k - 1] == (m + Zeros(16))[k - 1];
      assert Plus(TimesGenerator(q2), Zeros(|m|) + r2)[k - 1] == (m + Zeros(16))[k - 1];
      assert q1[..k] == q1[..k - 1] + [q1[k - 1]];
      assert q2[..k] == q2[..k - 1] + [q2[k - 1]];
    }
  }

  /** Coefficient k of the product depends on the coefficients of q up to k, and changes with the last of them. */
  lemma {:induction false} LeadingTerm(q: seq<bool>, k: nat)
    requires k < |q|
    ensures TimesGenerator(q)[k] == (TimesGenerator(q[..k])[k] != q[k])
  {
    var n := |q| - 1;
    if k < n {
      LeadingTerm(q[..n], k);
      assert q[..n][..k] == q[..k];
    }
  }

  // ---------- the register, one bit at a time ----------

  function BitFeed(r: seq<bool>, b: bool): (s: seq<bool>)
    requires |r| == 16
    ensures |s| == 16
  {
    Step(r[0 := r[0] != b])
  }

  function FeedBits(r: seq<bool>, m: seq<bool>): (s: seq<bool>)
    requires |r| == 16
    ensures |s| == 16
    decreases m
  {
    if m == [] then r else FeedBits(BitFeed(r, m[0]), m[1..])
  }

  lemma {:induction false} FeedBitsAppend(r: seq<bool>, a: seq<bool>, b: seq<bool>)
    requires |r| == 16
    ensures FeedBits(r, a + b) == FeedBits(FeedBits(r, a), b)
    decreases a
  {
    if a == [] {
      assert a + b == b;
    } else {
      var r' := BitFeed(r, a[0]);
      assert (a + b)[1..] == a[1..] + b;
      FeedBitsAppend(r', a[1..], b);
    }
  }

  lemma FeedBitsLast(r: seq<bool>, m: seq<bool>, b: bool)
    requires |r| == 16
    ensures FeedBits(r, m + [b]) == BitFeed(FeedBits(r, m), b)
  {
    FeedBitsAppend(r, m, [b]);
    FeedOne(FeedBits(r, m), b);
  }

  lemma FeedOne(r: seq<bool>, b: bool)
    requires |r| == 16
    ensures FeedBits(r, [b]) == BitFeed(r, b)
  {
    assert [b][1..] == [];
  }

  // ---------- the register holds the remainder ----------

  lemma DivisionStep(m: seq<bool>, q: seq<bool>, r: seq<bool>, b: bool)
    requires Divides(m, q, r)
    ensures Divides(m + [b], q + [r[0] != b], BitFeed(r, b))
  {
    var n, t := |m|, r[0] != b;
    var q' := q + [t];
    assert q'[..n] == q;
    var lhs := Plus(TimesGenerator(q'), Zeros(n + 1) + BitFeed(r, b));
    var rhs := m + [b] + Zeros(16);
    forall i | 0 <= i < n + 17 ensures lhs[i] == rhs[i] {
      DivisionCoefficient(m, q, r, b, i);
    }
    assert lhs == rhs;
  }

  /** The coefficients of one more bit of long division. */
  lemma DivisionCoefficient(m: seq<bool>, q: seq<bool>, r: seq<bool>, b: bool, i: nat)
    requires Divides(m, q, r) && i < |m| + 17
    ensures var q' := q + [r[0] != b];
            (TimesGenerator(q')[i] != (Zeros(|m| + 1) + BitFeed(r, b))[i]) == (m + [b] + Zeros(16))[i]
  {
    var n, q' := |m|, q + [r[0] != b];
    assert q'[..n] == q;
    if i < n + 16 {
      assert Plus(TimesGenerator(q), Zeros(n) + r)[i] == (m + Zeros(16))[i];
    }
    if i > n {
      RegisterCoefficient(r, b, i - n);
    }
  }

  lemma RegisterCoefficient(r: seq<bool>, b: bool, j: nat)
    requires |r| == 16 && 0 < j < 17
    ensures BitFeed(r, b)[j - 1] == ((r + [false])[j] != (r[0] != b && GENERATOR[j]))
  {
    var u := r[0 := r[0] != b];
    assert (u[1..] + [false])[j - 1] == (r + [false])[j];
  }

  lemma {:induction false} RegisterIsRemainder(m: seq<bool>) returns (q: seq<bool>)
    ensures Divides(m, q, FeedBits(Zeros(16), m))
  {
    if m == [] {
      q := [];
      assert Plus(Zeros(16), Zeros(0) + Zeros(16)) == m + Zeros(16);
    } else {
      var k := |m| - 1;
      var p := RegisterIsRemainder(m[..k]);
      DivisionStep(m[..k], p, FeedBits(Zeros(16), m[..k]), m[k]);
      assert m == m[..k] + [m[k]];
      FeedBitsLast(Zeros(16), m[..k], m[k]);
      q := p + [FeedBits(Zeros(16), m[..k])[0] != m[k]];
    }
  }

  // ---------- linearity and injectivity of the register ----------

  lemma StepLinear(r: seq<bool>, s: seq<bool>)
    requires |r| == |s| == 16
    ensures Step(Plus(r, s)) == Plus(Step(r), Step(s))
  {
  }

  lemma BitFeedLinear(r: seq<bool>, s: seq<bool>, a: bool, b: bool)
    requires |r| == |s| == 16
    ensures BitFeed(Plus(r, s), a != b) == Plus(BitFeed(r, a), BitFeed(s, b))
  {
    assert Plus(r, s)[0 := Plus(r, s)[0] != (a != b)] == Plus(r[0 := r[0] != a], s[0 := s[0] != b]);
    StepLinear(r[0 := r[0] != a], s[0 := s[0] != b]);
  }

  lemma {:induction false} FeedBitsLinear(r: seq<bool>, s: seq<bool>, a: seq<bool>, b: seq<bool>)
    requires |r| == |s| == 16 && |a| == |b|
    ensures FeedBits(Plus(r, s), Plus(a, b)) == Plus(FeedBits(r, a), FeedBits(s, b))
    decreases a
  {
    if a != [] {
      BitFeedLinear(r, s, a[0], b[0]);
      assert Plus(a, b)[1..] == Plus(a[1..], b[1..]);
      FeedBitsLinear(BitFeed(r, a[0]), BitFeed(s, b[0]), a[1..], b[1..]);
    }
  }

  lemma StepInjective(r: seq<bool>, s: seq<bool>)
    requires |r| == |s| == 16 && Step(r) == Step(s)
    ensures r == s
  {
    assert Step(r)[15] == r[0] && Step(s)[15] == s[0];
    forall i | 1 <= i < 16 ensures r[i] == s[i] {
      assert Step(r)[i - 1] == Step(s)[i - 1];
      assert (r[1..] + [false])[i - 1] == r[i] && (s[1..] + [false])[i - 1] == s[i];
    }
  }

  lemma {:induction false} StepsInjective(r: seq<bool>, s: seq<bool>, n: nat)
    requires |r| == |s| == 16 && Steps(r, n) == Steps(s, n)
    ensures r == s
    decreases n
  {
    if n > 0 {
      StepsInjective(Step(r), Step(s), n - 1);
      StepInjective(r, s);
    }
  }

  lemma BitFeedInjective(r: seq<bool>, s: seq<bool>, b: bool)
    requires |r| == |s| == 16 && BitFeed(r, b) == BitFeed(s, b)
    ensures r == s
  {
    var u, v := r[0 := r[0] != b], s[0 := s[0] != b];
    StepInjective(u, v);
    assert r == u[0 := u[0] != b] && s == v[0 := v[0] != b];
  }

  lemma {:induction false} FeedBitsInjective(r: seq<bool>, s: seq<bool>, m: seq<bool>)
    requires |r| == |s| == 16 && FeedBits(r, m) == FeedBits(s, m)
    ensures r == s
    decreases m
  {
    if m != [] {
      FeedBitsInjective(BitFeed(r, m[0]), BitFeed(s, m[0]), m[1..]);
      BitFeedInjective(r, s, m[0]);
    }
  }

  /** Feeding up to 16 bits one by one is adding them all at once and stepping as often. */
  lemma {:induction false} FeedIsAddThenStep(r: seq<bool>, m: seq<bool>)
    requires |r| == 16 && |m| <= 16
    ensures FeedBits(r, m) == Steps(Plus(r, m + Zeros(16 - |m|)), |m|)
    decreases |m|
  {
    if m == [] {
      assert Plus(r, m + Zeros(16)) == r;
    } else {
      AddFirst(r, m);
      FeedIsAddThenStep(BitFeed(r, m[0]), m[1..]);
    }
  }

  lemma AddFirst(r: seq<bool>, m: seq<bool>)
    requires |r| == 16 && 0 < |m| <= 16
    ensures Step(Plus(r, m + Zeros(16 - |m|))) == Plus(BitFeed(r, m[0]), m[1..] + Zeros(17 - |m|))
  {
    var sum, u := Plus(r, m + Zeros(16 - |m|)), r[0 := r[0] != m[0]];
    var rest := m[1..] + Zeros(17 - |m|);
    assert sum[0] == u[0];
    assert sum[1..] + [false] == Plus(ShiftLeft(u), rest);
    PlusSwap(ShiftLeft(u), rest, POLY);
  }

  lemma PlusSwap(a: seq<bool>, b: seq<bool>, c: seq<bool>)
    requires |a| == |b| == |c|
    ensures Plus(Plus(a, b), c) == Plus(Plus(a, c), b)
  {
  }

  /** Feeding a register its own content empties it. */
  lemma {:induction false} FeedOwnBits(r: seq<bool>, k: nat)
    requires |r| == 16 && k <= 16
    ensures FeedBits(r, r[..k]) == r[k..] + Zeros(k)
  {
    if k > 0 {
      FeedOwnBits(r, k - 1);
      assert r[..k] == r[..k - 1] + [r[k - 1]];
      FeedBitsLast(r, r[..k - 1], r[k - 1]);
      var p := r[k - 1..] + Zeros(k - 1);
      assert p[0] == r[k - 1];
      assert p[0 := false][1..] + [false] == r[k..] + Zeros(k);
    }
  }

  // ---------- bytes ----------

  function MessageBits(data: seq<Byte>): (s: seq<bool>)
    ensures |s| == 8 * |data|
  {
    if data == [] then [] else MessageBits(data[..|data| - 1]) + data[|data| - 1]
  }

  /** The byte-wise register is the bit-wise one. */
  lemma {:induction false} FeedIsFeedBits(x: Word, data: seq<Byte>)
    ensures Feed(x, data) == FeedBits(x, MessageBits(data))
  {
    if data != [] {
      var k := |data| - 1;
      FeedIsFeedBits(x, data[..k]);
      FeedIsAddThenStep(Feed(x, data[..k]), data[k]);
      FeedBitsAppend(x, MessageBits(data[..k]), data[k]);
    }
  }

  // ---------- main results ----------

  /** The checksum is the remainder of the message polynomial times x^16, and no other word is. */
  lemma ChecksumIsRemainder(data: seq<Byte>, r: seq<bool>)
    ensures (exists q :: Divides(MessageBits(data), q, r)) <==> r == Feed(Zeros(16), data)
  {
    var q := RegisterIsRemainder(MessageBits(data));
    FeedIsFeedBits(Zeros(16), data);
    forall p | Divides(MessageBits(data), p, r) ensures r == Feed(Zeros(16), data) {
      DivisionUnique(MessageBits(data), q, Feed(Zeros(16), data), p, r);
    }
  }

  function XorBytes(a: seq<Byte>, b: seq<Byte>): (c: seq<Byte>)
    requires |a| == |b|
  {
    seq(|a|, i requires 0 <= i < |a| => Plus(a[i], b[i]))
  }

  lemma {:induction false} MessageXorBits(a: seq<Byte>, b: seq<Byte>)
    requires |a| == |b|
    ensures MessageBits(XorBytes(a, b)) == Plus(MessageBits(a), MessageBits(b))
  {
    if a != [] {
      var k := |a| - 1;
      assert XorBytes(a, b)[..k] == XorBytes(a[..k], b[..k]);
      MessageXorBits(a[..k], b[..k]);
      PlusAppend(MessageBits(a[..k]), MessageBits(b[..k]), a[k], b[k]);
    }
  }

  lemma PlusAppend(a: seq<bool>, b: seq<bool>, c: seq<bool>, d: seq<bool>)
    requires |a| == |b| && |c| == |d|
    ensures Plus(a + c, b + d) == Plus(a, b) + Plus(c, d)
  {
  }

  /** The checksum of the difference of two messages is the difference of their checksums. */
  lemma ChecksumLinear(a: seq<Byte>, b: seq<Byte>)
    requires |a| == |b|
    ensures Feed(Zeros(16), XorBytes(a, b)) == Plus(Feed(Zeros(16), a), Feed(Zeros(16), b))
  {
    MessageXorBits(a, b);
    FeedIsFeedBits(Zeros(16), a);
    FeedIsFeedBits(Zeros(16), b);
    FeedIsFeedBits(Zeros(16), XorBytes(a, b));
    assert Plus(Zeros(16), Zeros(16)) == Zeros(16);
    FeedBitsLinear(Zeros(16), Zeros(16), MessageBits(a), MessageBits(b));
  }

  lemma MessageAppend(data: seq<Byte>, b: Byte)
    ensures MessageBits(data + [b]) == MessageBits(data) + b
  {
    assert (data + [b])[..|data|] == data;
  }

  /** Appending a message's checksum, high byte first, makes the checksum zero. */
  lemma ChecksItself(data: seq<Byte>)
    ensures var x := Feed(Zeros(16), data);
            Feed(Zeros(16), data + [x[..8]] + [x[8..]]) == Zeros(16)
  {
    var x := Feed(Zeros(16), data);
    var m := MessageBits(data);
    MessageAppend(data, x[..8]);
    MessageAppend(data + [x[..8]], x[8..]);
    assert m + x[..8] + x[8..] == m + x[..16];
    FeedIsFeedBits(Zeros(16), data);
    FeedIsFeedBits(Zeros(16), data + [x[..8]] + [x[8..]]);
    FeedBitsAppend(Zeros(16), m, x[..16]);
    FeedOwnBits(x, 16);
  }

  /** Two messages that differ only within a window of up to 16 bits, anywhere, have different checksums. */
  lemma DetectsBurst(a: seq<Byte>, b: seq<Byte>, before: seq<bool>, v: seq<bool>, w: seq<bool>, after: seq<bool>)
    requires |v| == |w| <= 16 && v != w
    requires MessageBits(a) == before + v + after && MessageBits(b) == before + w + after
    ensures Feed(Zeros(16), a) != Feed(Zeros(16), b)
  {
    FeedIsFeedBits(Zeros(16), a);
    FeedIsFeedBits(Zeros(16), b);
    FeedThrice(before, v, after);
    FeedThrice(before, w, after);
    var r := FeedBits(Zeros(16), before);
    if Feed(Zeros(16), a) == Feed(Zeros(16), b) {
      FeedBitsInjective(FeedBits(r, v), FeedBits(r, w), after);
      BurstInjective(r, v, w);
      assert false;
    }
  }

  lemma FeedThrice(a: seq<bool>, b: seq<bool>, c: seq<bool>)
    ensures FeedBits(Zeros(16), a + b + c) == FeedBits(FeedBits(FeedBits(Zeros(16), a), b), c)
  {
    FeedBitsAppend(Zeros(16), a + b, c);
    FeedBitsAppend(Zeros(16), a, b);
  }

  lemma BurstInjective(r: seq<bool>, v: seq<bool>, w: seq<bool>)
    requires |r| == 16 && |v| == |w| <= 16 && FeedBits(r, v) == FeedBits(r, w)
    ensures v == w
  {
    FeedIsAddThenStep(r, v);
    FeedIsAddThenStep(r, w);
    var s, t := Plus(r, v + Zeros(16 - |v|)), Plus(r, w + Zeros(16 - |v|));
    StepsInjective(s, t, |v|);
    assert forall i :: 0 <= i < |v| ==> s[i] == (r[i] != v[i]) && t[i] == (r[i] != w[i]);
  }
}
