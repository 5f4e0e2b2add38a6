/** The hand-written protobuf reader of the packet sniffer, and the encoder it is measured against.

    Widths are explicit: a varint is reduced modulo 2^64, a field number modulo 2^32, and a length
    prefix is cast to a C `int`. */
module Wire {
  import opened Common

  const TWO_32 := 0x1_0000_0000
  const TWO_64 := 0x1_0000_0000_0000_0000
  const INT_LIMIT := 0x8000_0000

  /** The C cast to `int32_t`: the representative of v modulo 2^32 in the signed range. */
  function Int32(v: int): (r: int)
    ensures -INT_LIMIT <= r < INT_LIMIT
    ensures -INT_LIMIT <= v < INT_LIMIT ==> r == v
  {
    var u := v % TWO_32;
    if u < INT_LIMIT then u else u - TWO_32
  }

  // ---------------------------------------------------------------- varints

  /** Where the varint starting at `pos` ends: one past the first byte without the continuation bit,
      or the end of the buffer. */
  function VarintEnd(d: Bytes, pos: nat): (e: nat)
    requires pos <= |d|
    ensures pos <= e <= |d|
    ensures pos < |d| ==> pos < e
    decreases |d| - pos
  {
    if pos == |d| then pos else if d[pos] < 128 then pos + 1 else VarintEnd(d, pos + 1)
  }

  /** The base-128 number the varint spells, before it is reduced to 64 bits. */
  function VarintSum(d: Bytes, pos: nat): nat
    requires pos <= |d|
    decreases |d| - pos
  {
    if pos == |d| then 0
    else if d[pos] < 128 then d[pos]
    else d[pos] - 128 + 128 * VarintSum(d, pos + 1)
  }

  /** Arithmetic in a `uint64_t`. */
  function Low64(x: nat): (r: nat)
    ensures r < TWO_64 && r <= x
    ensures x < TWO_64 ==> r == x
  {
    x % TWO_64
  }

  function VarintVal(d: Bytes, pos: nat): (v: nat)
    requires pos <= |d|
    ensures v < TWO_64
  {
    Low64(VarintSum(d, pos))
  }

  function Pow2(n: nat): (r: nat)
    ensures r > 0
  {
    if n == 0 then 1 else 2 * Pow2(n - 1)
  }

  /** The seven value bits of a byte. */
  function Low7(c: Byte): (r: nat)
    ensures r < 128
    ensures r == if c < 128 then c else c - 128
  {
    c % 128
  }

  /** Bitwise OR of natural numbers, bit by bit. */
  function BitOr(a: nat, b: nat): nat
    decreases a + b
  {
    if a == 0 && b == 0 then 0 else (if a % 2 == 1 || b % 2 == 1 then 1 else 0) + 2 * BitOr(a / 2, b / 2)
  }

  /** x shifted left by sh in a `uint64_t`, OR-ed into v. */
  function OrShifted(v: nat, x: nat, sh: nat): nat { BitOr(v, Low64(x * Pow2(sh))) }

  lemma {:induction false} OrNothing(v: nat)
    ensures BitOr(v, 0) == v
    decreases v
  {
    if v > 0 { OrNothing(v / 2); }
  }

  /** Numbers without a common bit position: the OR is the sum. */
  lemma {:induction false} OrAbove(v: nat, q: nat, sh: nat)
    requires v < Pow2(sh)
    ensures BitOr(v, q * Pow2(sh)) == v + q * Pow2(sh)
    decreases sh
  {
    if sh == 0 {
      OrSelf(q);
      assert q * Pow2(0) == q;
    } else {
      var p := Pow2(sh - 1);
      var h := q * p;
      assert q * Pow2(sh) == 2 * h by { assert q * (2 * p) == 2 * (q * p); }
      assert v / 2 < p;
      OrAbove(v / 2, q, sh - 1);
      OrStep(v, h);
    }
  }

  lemma OrStep(v: nat, h: nat)
    requires BitOr(v / 2, h) == v / 2 + h
    ensures BitOr(v, 2 * h) == v + 2 * h
  {
    assert (2 * h) / 2 == h && (2 * h) % 2 == 0;
  }

  lemma {:induction false} OrSelf(q: nat)
    ensures BitOr(0, q) == q
    decreases q
  {
    if q > 0 { OrSelf(q / 2); }
  }

  lemma Pow2Sum(a: nat, b: nat)
    ensures Pow2(a + b) == Pow2(a) * Pow2(b)
    decreases b
  {
    if b > 0 {
      Pow2Sum(a, b - 1);
      assert Pow2(a + b) == 2 * (Pow2(a) * Pow2(b - 1)) == Pow2(a) * (2 * Pow2(b - 1));
    }
  }

  lemma Pow2Of64()
    ensures Pow2(64) == TWO_64
  {
    assert Pow2(4) == 16;
    hide Pow2;
    Pow2Sum(4, 4);
    Pow2Sum(8, 8);
    Pow2Sum(16, 16);
    Pow2Sum(32, 32);
  }

  lemma Grows(n: nat, p: nat)
    requires n > 0
    ensures n * p >= p
  {
    assert n * p == (n - 1) * p + p;
  }

  /** What is left of a multiple of p in m * p: a multiple of p, with p to spare. */
  lemma ModMultiple(x: nat, p: nat, m: nat)
    requires p > 0 && m > 0
    ensures m * p >= p && (x * p) % (m * p) == (x % m) * p && (x % m) * p + p <= m * p
  {
    var d, r := x / m, x % m;
    var xp, mp, rp := x * p, m * p, r * p;
    Grows(m, p);
    assert x == m * d + r;
    MulSplit(m, d, r, p);
    Spare(m, r, p);
    assert xp == mp * d + rp;
    DivisionIsUnique(xp, mp, d, rp);
  }

  lemma MulSplit(m: int, d: int, r: int, p: int)
    ensures (m * d + r) * p == (m * p) * d + r * p
  {
    assert (m * d + r) * p == (m * d) * p + r * p;
    assert (m * d) * p == (m * p) * d;
  }

  lemma Spare(m: nat, r: nat, p: nat)
    requires r < m
    ensures 0 <= r * p && r * p + p <= m * p
  {
    var k := m - r;
    Grows(k, p);
    assert m * p == r * p + k * p;
  }

  /** OR-ing a shifted group above the bits of v adds it, modulo 2^64. */
  lemma OrIsSum(v: nat, x: nat, sh: nat)
    requires v < Pow2(sh) && v < TWO_64
    ensures OrShifted(v, x, sh) == Low64(v + x * Pow2(sh))
  {
    if sh <= 64 {
      OrIsSumInside(v, x, sh);
    } else {
      OrIsSumOutside(v, x, sh);
    }
  }

  lemma OrIsSumInside(v: nat, x: nat, sh: nat)
    requires v < Pow2(sh) && sh <= 64
    ensures OrShifted(v, x, sh) == Low64(v + x * Pow2(sh))
  {
    hide Pow2, BitOr;
    Pow2Of64();
    var p, m := Pow2(sh), Pow2(64 - sh);
    Pow2Sum(64 - sh, sh);
    ModMultiple(x, p, m);
    OrAbove(v, x % m, sh);
    var y, r := x * p, (x % m) * p;
    assert Low64(y) == r && v + r < TWO_64;
    Low64Add(y, v);
  }

  lemma OrIsSumOutside(v: nat, x: nat, sh: nat)
    requires v < TWO_64 && sh > 64
    ensures OrShifted(v, x, sh) == Low64(v + x * Pow2(sh))
  {
    hide Pow2, BitOr;
    Pow2Of64();
    Pow2Sum(64, sh - 64);
    var y, k := x * Pow2(sh), x * Pow2(sh - 64);
    assert y == TWO_64 * k;
    DivisionIsUnique(y, TWO_64, k, 0);
    OrNothing(v);
    Low64Add(y, v);
  }

  /** The value once the bytes still to come, spelling `rest`, are in. */
  ghost function Completed(v: nat, sh: nat, rest: nat): nat {
    Low64(v + Pow2(sh) * rest)
  }

  /** One byte of the reader's loop: `low` is the byte's seven bits, `rest` what the later bytes spell. */
  lemma VarintTurn(v: nat, low: nat, sh: nat, rest: nat)
    requires v < Pow2(sh) && v < TWO_64 && low < 128
    ensures var w := OrShifted(v, low, sh);
            w < Pow2(sh + 7) && w < TWO_64 && Completed(w, sh + 7, rest) == Completed(v, sh, low + 128 * rest)
  {
    hide Low64, Pow2, OrShifted;
    var p, q := Pow2(sh), Pow2(sh + 7);
    OrIsSum(v, low, sh);
    Pow2Seven(sh);
    Distribute(p, q, low, rest);
    var lowPart, restPart, whole := low * p, q * rest, p * (low + 128 * rest);
    assert whole == lowPart + restPart;
    Low64Add(v + lowPart, restPart);
    assert (v + lowPart) + restPart == v + whole;
  }

  lemma VarintBounds(v: nat, sh: nat)
    ensures Pow2(0) == 1
    ensures v < TWO_64 ==> Completed(v, sh, 0) == v
    ensures Completed(0, 0, v) == Low64(v)
  {
  }

  lemma Distribute(p: nat, q: nat, low: nat, rest: nat)
    requires q == 128 * p && low < 128
    ensures p * (low + 128 * rest) == low * p + q * rest
    ensures low * p <= 127 * p
  {
    calc {
      q * rest;
      (128 * p) * rest;
      p * (128 * rest);
    }
    assert p * (low + 128 * rest) == p * low + p * (128 * rest);
    assert 127 * p - low * p == (127 - low) * p >= 0;
  }

  lemma Pow2Seven(sh: nat)
    ensures Pow2(sh + 7) == 128 * Pow2(sh)
  {
    assert Pow2(sh + 4) == 16 * Pow2(sh) by { assert Pow2(sh + 2) == 4 * Pow2(sh); }
    assert Pow2(sh + 6) == 4 * Pow2(sh + 4);
  }

  lemma Low64Add(x: nat, y: nat)
    ensures Low64(Low64(x) + y) == Low64(x + y)
  {
  }

  /** `pb_varint`. The invariant on `Pow2(sh)` says that the bits OR-ed in lie above those gathered. */
  method PbVarint(b: Bytes, start: nat) returns (v: nat, pos: nat)
    requires start <= |b|
    ensures v == VarintVal(b, start)
    ensures pos == VarintEnd(b, start)
  {
    hide Low64, Pow2, OrShifted, Completed, Low7;
    v, pos := 0, start;
    var sh := 0;
    VarintBounds(VarintSum(b, start), 0);
    while pos < |b|
      invariant start <= pos <= |b|
      invariant v < Pow2(sh) && v < TWO_64
      invariant Completed(v, sh, VarintSum(b, pos)) == VarintVal(b, start)
      invariant VarintEnd(b, pos) == VarintEnd(b, start)
    {
      var c := b[pos];
      ghost var rest := if c < 128 then 0 else VarintSum(b, pos + 1);
      VarintTurn(v, Low7(c), sh, rest);
      pos := pos + 1;
      v := OrShifted(v, Low7(c), sh);
      VarintBounds(v, sh + 7);
      if c < 128 {
        break;
      }
      sh := sh + 7;
    }
    VarintBounds(v, sh);
  }

  /** The minimal base-128 encoding. */
  function EncVarint(v: nat): (r: Bytes)
    ensures |r| > 0
  {
    if v < 128 then [v] else [128 + v % 128] + EncVarint(v / 128)
  }

  lemma {:induction false} VarintInverse(d: Bytes, pos: nat, v: nat)
    requires At(d, pos, EncVarint(v))
    ensures VarintSum(d, pos) == v
    ensures VarintEnd(d, pos) == pos + |EncVarint(v)|
    decreases v
  {
    if v >= 128 {
      AtSplit(d, pos, [128 + v % 128], EncVarint(v / 128));
      assert d[pos] == d[pos..pos + 1][0] == 128 + v % 128;
      VarintInverse(d, pos + 1, v / 128);
    } else {
      assert d[pos] == d[pos..pos + 1][0] == v;
    }
  }

  lemma VarintValInverse(d: Bytes, pos: nat, v: nat)
    requires v < TWO_64 && At(d, pos, EncVarint(v))
    ensures VarintVal(d, pos) == v && VarintEnd(d, pos) == pos + |EncVarint(v)|
  {
    VarintInverse(d, pos, v);
  }

  function Pow128(n: nat): (r: nat)
    ensures r > 0
  {
    if n == 0 then 1 else 128 * Pow128(n - 1)
  }

  /** A 64-bit value never needs an eleventh byte, so the shift count of the reader stays below 64. */
  lemma {:induction false} VarintLength(v: nat, n: nat)
    requires n > 0
    ensures |EncVarint(v)| <= n <==> v < Pow128(n)
  {
    if n > 1 && v >= 128 {
      VarintLength(v / 128, n - 1);
    }
  }

  // ---------------------------------------------------------------- zigzag

  /** `pb_zigzag`: half of n, complemented when n is odd, read as a signed word. */
  function PbZigzag(n: nat): int {
    var half := (n / 2) % TWO_32;
    Int32(if n % 2 == 0 then half else TWO_32 - 1 - half)
  }

  function EncZigzag(i: int): nat {
    if i >= 0 then 2 * i else -2 * i - 1
  }

  lemma ZigzagInverse(i: int)
    requires -INT_LIMIT <= i < INT_LIMIT
    ensures EncZigzag(i) < TWO_32
    ensures PbZigzag(EncZigzag(i)) == i
  {
  }

  lemma ZigzagOnto(n: nat)
    requires n < TWO_32
    ensures EncZigzag(PbZigzag(n)) == n
  {
  }

  // ---------------------------------------------------------------- one field

  datatype Field =
    | FVarint(num: nat, v: nat)
    | FFixed64(num: nat, raw: Bytes)
    | FBytes(num: nat, body: Bytes)
    | FFixed32(num: nat, word: nat)

  datatype Step =
    | Stop
    | Take(f: Field, next: nat)
    | Back(num: nat, target: int)  // the length prefix, as an int, is negative or overflows the cursor

  /** The cast length prefix is not negative and adding it to the cursor does not overflow an int. */
  predicate FitsInt(q: nat, sz: nat) {
    0 <= Int32(sz) && q + Int32(sz) < INT_LIMIT
  }

  /** The cursor move of `pb_skip`: None where it returns false. */
  function SkipTo(d: Bytes, pos: nat, wt: nat): Option<int>
    requires pos <= |d|
  {
    match wt
    case 0 => Some(VarintEnd(d, pos))
    case 1 => if pos + 8 > |d| then None else Some(pos + 8)
    case 5 => if pos + 4 > |d| then None else Some(pos + 4)
    case 2 =>
      var q := VarintEnd(d, pos);
      var next := Int32(q + Int32(VarintVal(d, pos)));
      if q == pos || next > |d| then None else Some(next)
    case _ => None
  }

  method PbSkip(b: Bytes, start: nat, wt: nat) returns (ok: bool, pos: int)
    requires start <= |b|
    ensures ok == SkipTo(b, start, wt).Some?
    ensures ok ==> pos == SkipTo(b, start, wt).value
  {
    pos := start;
    match wt {
      case 0 =>
        var v, p := PbVarint(b, start);
        return true, p;
      case 1 =>
        if pos + 8 > |b| { return false, pos; }
        return true, pos + 8;
      case 5 =>
        if pos + 4 > |b| { return false, pos; }
        return true, pos + 4;
      case 2 =>
        var sz, p := PbVarint(b, start);
        if p == start || Int32(p + Int32(sz)) > |b| { return false, p; }
        return true, Int32(p + Int32(sz));
      case _ =>
        return false, pos;
    }
  }

  function FieldNumber(tag: nat): nat { (tag / 8) % TWO_32 }

  /** The value behind a tag with field number `num` and wire type `wt`. */
  function ReadValue(d: Bytes, p: nat, wt: nat, num: nat): Step
    requires p <= |d|
  {
    var next := SkipTo(d, p, wt);
    if next.None? then Stop
    else
      match wt
      case 0 => Take(FVarint(num, VarintVal(d, p)), next.value)
      case 1 => Take(FFixed64(num, d[p..p + 8]), next.value)
      case 5 => Take(FFixed32(num, FromLittleEndian(d[p..p + 4])), next.value)
      case 2 =>
        var q := VarintEnd(d, p);
        if FitsInt(q, VarintVal(d, p)) then Take(FBytes(num, d[q..next.value]), next.value)
        else Back(num, next.value)
      case _ => Stop
  }

  /** One turn of the loop that every decoder of the sniffer is built around. */
  function ReadField(d: Bytes, pos: nat): Step
    requires pos < |d|
  {
    var tag := VarintVal(d, pos);
    ReadValue(d, VarintEnd(d, pos), tag % 8, FieldNumber(tag))
  }

  /** Every field taken moves the cursor forward inside the buffer, and a body lies inside it too. */
  lemma TakeKeepsCursor(d: Bytes, pos: nat)
    requires pos < |d|
    ensures var s := ReadField(d, pos);
            s.Take? ==> pos < s.next <= |d| && (s.f.FBytes? ==> |s.f.body| < s.next - pos)
  {
  }

  /** A length prefix the reader accepts leaves the cursor between the prefix and the end of the buffer
      exactly when the prefix, cast to int, is not negative and does not overflow the cursor. */
  lemma PrefixKeepsCursorIffItFits(d: Bytes, pos: nat)
    requires pos < |d| < INT_LIMIT
    requires SkipTo(d, pos, 2).Some?
    ensures var q := VarintEnd(d, pos);
            q <= SkipTo(d, pos, 2).value <= |d| <==> FitsInt(q, VarintVal(d, pos))
  {
  }

  /** A field that starts at `from` with its length prefix at `pos` moves the cursor forward inside the buffer
      exactly when the prefix, cast to int, does not take back the tag and the prefix, and does not overflow. */
  lemma PrefixAdvancesIff(d: Bytes, from: nat, pos: nat)
    requires from < pos < |d| < INT_LIMIT
    requires SkipTo(d, pos, 2).Some?
    ensures var q, sz := VarintEnd(d, pos), Int32(VarintVal(d, pos));
            from < SkipTo(d, pos, 2).value <= |d| <==> from - q < sz && q + sz < INT_LIMIT
  {
    hide Int32, VarintVal, VarintEnd;
    SumWraps(VarintEnd(d, pos), Int32(VarintVal(d, pos)));
  }

  /** A cursor and a length added as ints. */
  lemma SumWraps(q: nat, sz: int)
    requires q < INT_LIMIT && -INT_LIMIT <= sz < INT_LIMIT
    ensures Int32(q + sz) == if q + sz < INT_LIMIT then q + sz else q + sz - TWO_32
  {
  }

  /** A length of -1 still advances, over the tag and most of its own prefix. */
  lemma ShortNegativePrefixAdvances()
    ensures var d: Bytes := [0x12, 0xFF, 0xFF, 0xFF, 0xFF, 0x0F];
            ReadField(d, 0) == Back(2, 5) && SkipTo(d, 1, 2) == Some(5) && ReadField(d, 5) == Stop
  {
    var d: Bytes := [0x12, 0xFF, 0xFF, 0xFF, 0xFF, 0x0F];
    assert VarintSum(d, 0) == 0x12 && VarintEnd(d, 0) == 1;
    assert VarintSum(d, 5) == 0x0F && VarintEnd(d, 5) == 6;
    assert VarintSum(d, 4) == 127 + 128 * 0x0F && VarintEnd(d, 4) == 6;
    assert VarintSum(d, 3) == 127 + 128 * VarintSum(d, 4) && VarintEnd(d, 3) == 6;
    assert VarintSum(d, 2) == 127 + 128 * VarintSum(d, 3) && VarintEnd(d, 2) == 6;
    assert VarintSum(d, 1) == 127 + 128 * VarintSum(d, 2) && VarintEnd(d, 1) == 6;
    assert VarintVal(d, 1) == 0xFFFF_FFFF;
    assert Int32(VarintVal(d, 1)) == -1;
  }

  /** The condition is needed: on this message (field 2, length -6 as an int)
      the cursor comes back to 0, so the loop of a decoder would turn forever. */
  lemma NegativePrefixRewinds()
    ensures var d: Bytes := [0x12, 0xFA, 0xFF, 0xFF, 0xFF, 0x0F]; ReadField(d, 0) == Back(2, 0)
  {
    var d: Bytes := [0x12, 0xFA, 0xFF, 0xFF, 0xFF, 0x0F];
    assert VarintSum(d, 0) == 0x12 && VarintEnd(d, 0) == 1;
    assert VarintSum(d, 5) == 0x0F && VarintEnd(d, 5) == 6;
    assert VarintSum(d, 4) == 127 + 128 * 0x0F && VarintEnd(d, 4) == 6;
    assert VarintSum(d, 3) == 127 + 128 * VarintSum(d, 4) && VarintEnd(d, 3) == 6;
    assert VarintSum(d, 2) == 127 + 128 * VarintSum(d, 3) && VarintEnd(d, 2) == 6;
    assert VarintSum(d, 1) == 122 + 128 * VarintSum(d, 2) && VarintEnd(d, 1) == 6;
    assert VarintVal(d, 1) == 0xFFFF_FFFA;
    assert Int32(VarintVal(d, 1)) == -6;
  }

  // ---------------------------------------------------------------- whole messages

  /** The fields the decoders visit from `pos` on. */
  function Parse(d: Bytes, pos: nat): seq<Field>
    requires pos <= |d|
    decreases |d| - pos
  {
    if pos == |d| then []
    else
      var s := ReadField(d, pos);
      if s.Take? then TakeKeepsCursor(d, pos); [s.f] + Parse(d, s.next) else []
  }

  /** No length prefix met from `pos` on is negative or overflows the cursor. */
  ghost predicate LengthsFit(d: Bytes, pos: nat)
    requires pos <= |d|
    decreases |d| - pos
  {
    pos < |d| ==>
      var s := ReadField(d, pos);
      TakeKeepsCursor(d, pos);
      !s.Back? && (s.Take? ==> LengthsFit(d, s.next))
  }

  predicate WellFormed(f: Field) {
    f.num < TWO_32 &&
    match f
    case FVarint(_, v) => v < TWO_64
    case FFixed64(_, raw) => |raw| == 8
    case FBytes(_, body) => |body| < INT_LIMIT
    case FFixed32(_, word) => word < TWO_32
  }

  predicate AllWellFormed(fs: seq<Field>) {
    forall i :: 0 <= i < |fs| ==> WellFormed(fs[i])
  }

  function WireType(f: Field): nat {
    match f
    case FVarint(_, _) => 0
    case FFixed64(_, _) => 1
    case FBytes(_, _) => 2
    case FFixed32(_, _) => 5
  }

  function EncBody(f: Field): Bytes {
    match f
    case FVarint(_, v) => EncVarint(v)
    case FFixed64(_, raw) => raw
    case FBytes(_, body) => EncVarint(|body|) + body
    case FFixed32(_, word) => LittleEndian(word, 4)
  }

  function EncField(f: Field): (r: Bytes)
    ensures |r| > 0
  {
    EncVarint(8 * f.num + WireType(f)) + EncBody(f)
  }

  function EncFields(fs: seq<Field>): Bytes {
    if fs == [] then [] else EncField(fs[0]) + EncFields(fs[1..])
  }

  lemma {:induction false} EncFieldsConcat(a: seq<Field>, b: seq<Field>)
    ensures EncFields(a + b) == EncFields(a) + EncFields(b)
  {
    if a == [] {
      assert a + b == b;
    } else {
      assert (a + b)[1..] == a[1..] + b;
      EncFieldsConcat(a[1..], b);
    }
  }

  lemma TagInverse(d: Bytes, pos: nat, num: nat, wt: nat)
    requires num < TWO_32 && wt < 8 && At(d, pos, EncVarint(8 * num + wt))
    ensures VarintEnd(d, pos) == pos + |EncVarint(8 * num + wt)|
    ensures VarintVal(d, pos) % 8 == wt && FieldNumber(VarintVal(d, pos)) == num
  {
    VarintInverse(d, pos, 8 * num + wt);
  }

  lemma ValueInverse(d: Bytes, p: nat, f: Field)
    requires WellFormed(f) && At(d, p, EncBody(f)) && |d| < INT_LIMIT
    ensures ReadValue(d, p, WireType(f), f.num) == Take(f, p + |EncBody(f)|)
  {
    match f {
      case FVarint(_, v) =>
        VarintInverse(d, p, v);
      case FFixed64(_, raw) =>
      case FBytes(_, body) =>
        AtSplit(d, p, EncVarint(|body|), body);
        VarintInverse(d, p, |body|);
      case FFixed32(_, word) =>
        assert Pow256(4) == TWO_32 by { assert Pow256(2) == 0x1_0000; }
        LittleEndianInverse(word, 4);
    }
  }

  /** Reading where one field is encoded gives back that field and stops right behind it. */
  lemma ReadFieldInverse(d: Bytes, pos: nat, f: Field)
    requires WellFormed(f) && At(d, pos, EncField(f)) && |d| < INT_LIMIT
    ensures pos < |d| && ReadField(d, pos) == Take(f, pos + |EncField(f)|)
  {
    hide ReadValue, EncBody, VarintVal, VarintEnd, EncVarint, At;
    var tag := EncVarint(8 * f.num + WireType(f));
    AtSplit(d, pos, tag, EncBody(f));
    AtLength(d, pos, tag);
    TagInverse(d, pos, f.num, WireType(f));
    ValueInverse(d, pos + |tag|, f);
  }

  lemma AtLength(d: Bytes, pos: nat, e: Bytes)
    requires At(d, pos, e)
    ensures pos + |e| <= |d|
  {
  }

  /** Parsing inverts encoding, whatever follows the encoded fields. */
  lemma {:induction false} ParseInverse(d: Bytes, pos: nat, fs: seq<Field>)
    requires AllWellFormed(fs) && At(d, pos, EncFields(fs)) && |d| < INT_LIMIT
    ensures Parse(d, pos) == fs + Parse(d, pos + |EncFields(fs)|)
    ensures LengthsFit(d, pos) == LengthsFit(d, pos + |EncFields(fs)|)
    decreases |fs|
  {
    hide ReadField, EncField, At, WellFormed;
    AtLength(d, pos, EncFields(fs));
    if fs != [] {
      var e := EncField(fs[0]);
      AtSplit(d, pos, e, EncFields(fs[1..]));
      ReadFieldInverse(d, pos, fs[0]);
      AtLength(d, pos, e);
      ParseInverse(d, pos + |e|, fs[1..]);
      ConsAssoc(fs, Parse(d, pos + |EncFields(fs)|));
    }
  }

  /** The round trip on a whole message. */
  lemma ParseEncoded(fs: seq<Field>)
    requires AllWellFormed(fs) && |EncFields(fs)| < INT_LIMIT
    ensures Parse(EncFields(fs), 0) == fs
    ensures LengthsFit(EncFields(fs), 0)
  {
    hide EncFields, ReadField;
    var d := EncFields(fs);
    assert d[0..|d|] == d;
    ParseInverse(d, 0, fs);
  }

  // ---------------------------------------------------------------- moving a message

  lemma {:induction false} VarintShift(a: Bytes, b: Bytes, pos: nat)
    requires pos <= |b|
    ensures VarintEnd(a + b, |a| + pos) == |a| + VarintEnd(b, pos)
    ensures VarintSum(a + b, |a| + pos) == VarintSum(b, pos)
    ensures VarintVal(a + b, |a| + pos) == VarintVal(b, pos)
    decreases |b| - pos
  {
    if pos < |b| {
      VarintShift(a, b, pos + 1);
    }
  }

  lemma SliceShift(a: Bytes, b: Bytes, i: int, j: int)
    ensures 0 <= i <= j <= |b| ==> (a + b)[|a| + i..|a| + j] == b[i..j]
  {
  }

  lemma ReadValueShift(a: Bytes, b: Bytes, p: nat, wt: nat, num: nat)
    requires p <= |b| && |a + b| < INT_LIMIT
    requires !ReadValue(a + b, |a| + p, wt, num).Back?
    ensures var s, t := ReadValue(a + b, |a| + p, wt, num), ReadValue(b, p, wt, num);
            if s.Take? then t.Take? && t.f == s.f && t.next + |a| == s.next else t.Stop?
  {
    hide VarintVal, VarintEnd, FromLittleEndian;
    VarintShift(a, b, p);
    match wt
    case 1 => SliceShift(a, b, p, p + 8);
    case 5 => SliceShift(a, b, p, p + 4);
    case 2 => BodyShift(a, b, p, num);
    case _ =>
  }

  lemma BodyShift(a: Bytes, b: Bytes, p: nat, num: nat)
    requires p <= |b| && |a + b| < INT_LIMIT
    requires !ReadValue(a + b, |a| + p, 2, num).Back?
    ensures var s, t := ReadValue(a + b, |a| + p, 2, num), ReadValue(b, p, 2, num);
            if s.Take? then t.Take? && t.f == s.f && t.next + |a| == s.next else t.Stop?
  {
    hide VarintVal, VarintEnd, FromLittleEndian;
    VarintShift(a, b, p);
    var q := VarintEnd(b, p);
    SliceShift(a, b, q, q + Int32(VarintVal(b, p)));
  }

  lemma ReadFieldShift(a: Bytes, b: Bytes, pos: nat)
    requires pos < |b| && |a + b| < INT_LIMIT
    requires !ReadField(a + b, |a| + pos).Back?
    ensures var s, t := ReadField(a + b, |a| + pos), ReadField(b, pos);
            if s.Take? then t.Take? && t.f == s.f && t.next + |a| == s.next else t.Stop?
  {
    hide ReadValue;
    VarintShift(a, b, pos);
    var tag := VarintVal(b, pos);
    ReadValueShift(a, b, VarintEnd(b, pos), tag % 8, FieldNumber(tag));
  }

  /** What stands in front of a message does not change what the decoders see in it. */
  lemma {:induction false} ParseShift(a: Bytes, b: Bytes, pos: nat)
    requires pos <= |b| && |a + b| < INT_LIMIT
    requires LengthsFit(a + b, |a| + pos)
    ensures Parse(a + b, |a| + pos) == Parse(b, pos)
    ensures LengthsFit(b, pos)
    decreases |b| - pos
  {
    if pos < |b| {
      ReadFieldShift(a, b, pos);
      var s := ReadField(b, pos);
      if s.Take? {
        TakeKeepsCursor(b, pos);
        ParseShift(a, b, s.next);
      }
    }
  }

  // ---------------------------------------------------------------- what follows a complete message

  /** The varint at `pos` ends inside the buffer, not with it. */
  predicate VarintCloses(d: Bytes, pos: nat)
    decreases |d| - pos
  {
    pos < |d| && (d[pos] < 128 || VarintCloses(d, pos + 1))
  }

  /** The field at `pos` is complete: nothing behind the buffer would still belong to it. */
  predicate FieldCloses(d: Bytes, pos: nat)
    requires pos < |d|
  {
    VarintCloses(d, pos) && ReadField(d, pos).Take?
    && var wt := VarintVal(d, pos) % 8;
       (wt == 0 || wt == 2 ==> VarintCloses(d, VarintEnd(d, pos)))
  }

  /** From `pos` on the buffer is a row of complete fields, in whatever encoding of their numbers. */
  predicate Complete(d: Bytes, pos: nat)
    requires pos <= |d|
    decreases |d| - pos
  {
    pos < |d| ==>
      FieldCloses(d, pos)
      && (TakeKeepsCursor(d, pos); Complete(d, ReadField(d, pos).next))
  }

  lemma {:induction false} VarintPrefix(a: Bytes, b: Bytes, pos: nat)
    requires VarintCloses(a, pos)
    ensures VarintEnd(a + b, pos) == VarintEnd(a, pos) && VarintSum(a + b, pos) == VarintSum(a, pos)
    ensures VarintVal(a + b, pos) == VarintVal(a, pos)
    decreases |a| - pos
  {
    if a[pos] >= 128 { VarintPrefix(a, b, pos + 1); }
  }

  lemma SlicePrefix(a: Bytes, b: Bytes, i: int, j: int)
    ensures 0 <= i <= j <= |a| ==> (a + b)[i..j] == a[i..j]
  {
  }

  lemma ReadFieldPrefix(a: Bytes, b: Bytes, pos: nat)
    requires pos < |a| && FieldCloses(a, pos)
    ensures ReadField(a + b, pos) == ReadField(a, pos)
  {
    hide VarintVal, VarintEnd, FromLittleEndian, VarintCloses;
    VarintPrefix(a, b, pos);
    var p := VarintEnd(a, pos);
    match VarintVal(a, pos) % 8
    case 0 => VarintPrefix(a, b, p);
    case 1 => SlicePrefix(a, b, p, p + 8);
    case 5 => SlicePrefix(a, b, p, p + 4);
    case 2 =>
      VarintPrefix(a, b, p);
      SlicePrefix(a, b, VarintEnd(a, p), VarintEnd(a, p) + Int32(VarintVal(a, p)));
    case _ =>
  }

  lemma {:induction false} ParsePrefix(a: Bytes, b: Bytes, pos: nat)
    requires pos <= |a| && Complete(a, pos)
    ensures Parse(a + b, pos) == Parse(a, pos) + Parse(a + b, |a|)
    ensures LengthsFit(a, pos) && (LengthsFit(a + b, pos) <==> LengthsFit(a + b, |a|))
    decreases |a| - pos
  {
    if pos == |a| {
      assert [] + Parse(a + b, |a|) == Parse(a + b, |a|);
    } else {
      hide ReadField, FieldCloses;
      assert ReadField(a, pos).Take? by { FieldTaken(a, pos); }
      TakeKeepsCursor(a, pos);
      ReadFieldPrefix(a, b, pos);
      var s := ReadField(a, pos);
      ParsePrefix(a, b, s.next);
      ConcatAssoc([s.f], Parse(a, s.next), Parse(a + b, |a|));
    }
  }

  lemma FieldTaken(d: Bytes, pos: nat)
    requires pos < |d| && FieldCloses(d, pos)
    ensures ReadField(d, pos).Take?
  {
  }

  /** A complete message followed by any bytes: first its own fields, then those of the rest. */
  lemma ParseAppend(a: Bytes, b: Bytes)
    requires Complete(a, 0) && |a + b| < INT_LIMIT && LengthsFit(a + b, 0)
    ensures Parse(a + b, 0) == Parse(a, 0) + Parse(b, 0)
    ensures LengthsFit(a, 0) && LengthsFit(b, 0)
  {
    hide Parse, LengthsFit, Complete;
    ParsePrefix(a, b, 0);
    ParseShift(a, b, 0);
  }

  lemma {:induction false} EncVarintCloses(d: Bytes, pos: nat, v: nat)
    requires At(d, pos, EncVarint(v))
    ensures VarintCloses(d, pos)
    decreases v
  {
    if v >= 128 {
      assert EncVarint(v)[1..] == EncVarint(v / 128);
      assert d[pos + 1..pos + |EncVarint(v)|] == EncVarint(v)[1..];
      EncVarintCloses(d, pos + 1, v / 128);
    } else {
      assert d[pos] == EncVarint(v)[0];
    }
  }

  /** A value that starts with a number: that number is complete. */
  lemma BodyCloses(d: Bytes, p: nat, f: Field)
    requires At(d, p, EncBody(f)) && (f.FVarint? || f.FBytes?)
    ensures VarintCloses(d, p)
  {
    hide EncVarint, VarintCloses, At;
    if f.FVarint? {
      EncVarintCloses(d, p, f.v);
    } else {
      AtSplit(d, p, EncVarint(|f.body|), f.body);
      EncVarintCloses(d, p, |f.body|);
    }
  }

  /** What stands before the value: the tag is complete and names the type. */
  lemma TagCloses(d: Bytes, pos: nat, f: Field)
    requires WellFormed(f) && At(d, pos, EncField(f))
    ensures VarintCloses(d, pos) && VarintVal(d, pos) % 8 == WireType(f) && At(d, VarintEnd(d, pos), EncBody(f))
  {
    hide EncVarint, VarintVal, VarintEnd, VarintCloses, EncBody, At, FieldNumber;
    var v := 8 * f.num + WireType(f);
    AtSplit(d, pos, EncVarint(v), EncBody(f));
    EncVarintCloses(d, pos, v);
    TagInverse(d, pos, f.num, WireType(f));
  }

  lemma EncFieldCloses(d: Bytes, pos: nat, f: Field)
    requires WellFormed(f) && At(d, pos, EncField(f)) && |d| < INT_LIMIT
    ensures pos < |d| && FieldCloses(d, pos)
  {
    hide EncField, VarintVal, VarintEnd, ReadField, VarintCloses, EncBody, At, WellFormed;
    ReadFieldInverse(d, pos, f);
    TagCloses(d, pos, f);
    if f.FVarint? || f.FBytes? { BodyCloses(d, VarintEnd(d, pos), f); }
  }

  lemma {:induction false} EncodedIsCompleteAt(d: Bytes, pos: nat, fs: seq<Field>)
    requires AllWellFormed(fs) && At(d, pos, EncFields(fs)) && pos + |EncFields(fs)| == |d| < INT_LIMIT
    ensures Complete(d, pos)
    decreases |fs|
  {
    hide ReadField, EncField, At, WellFormed, FieldCloses;
    if fs != [] {
      var e := EncField(fs[0]);
      AtSplit(d, pos, e, EncFields(fs[1..]));
      ReadFieldInverse(d, pos, fs[0]);
      EncFieldCloses(d, pos, fs[0]);
      EncodedIsCompleteAt(d, pos + |e|, fs[1..]);
    }
  }

  /** What the encoder writes is complete. */
  lemma EncodedIsComplete(fs: seq<Field>)
    requires AllWellFormed(fs) && |EncFields(fs)| < INT_LIMIT
    ensures Complete(EncFields(fs), 0)
  {
    hide EncFields, Complete;
    var d := EncFields(fs);
    assert d[0..|d|] == d;
    EncodedIsCompleteAt(d, 0, fs);
  }

  /** The same on lists of fields. */
  lemma ParseConcat(fs: seq<Field>, b: Bytes)
    requires AllWellFormed(fs) && |EncFields(fs) + b| < INT_LIMIT
    requires LengthsFit(EncFields(fs) + b, 0)
    ensures Parse(EncFields(fs) + b, 0) == fs + Parse(b, 0)
  {
    hide EncFields, Parse, LengthsFit, AllWellFormed, Complete;
    EncodedIsComplete(fs);
    ParseAppend(EncFields(fs), b);
    ParseEncoded(fs);
  }

  // ---------------------------------------------------------------- the format by example

  /** The Protocol Buffers encoding guide's own examples: 150 under field 1, "testing" under field 2. */
  lemma GuideExamples()
    ensures EncField(FVarint(1, 150)) == [0x08, 0x96, 0x01]
    ensures EncField(FBytes(2, [0x74, 0x65, 0x73, 0x74, 0x69, 0x6E, 0x67]))
         == [0x12, 0x07, 0x74, 0x65, 0x73, 0x74, 0x69, 0x6E, 0x67]
  {
    assert EncVarint(150) == [128 + 22] + EncVarint(1);
    assert EncVarint(7) == [7] && EncVarint(0x12) == [0x12] && EncVarint(0x08) == [0x08];
    hide EncVarint;
  }

  /** A fixed32 and a fixed64 under fields 3 and 4; words are written least significant byte first. */
  lemma FixedExamples()
    ensures EncField(FFixed32(3, 0x0403_0201)) == [0x1D, 0x01, 0x02, 0x03, 0x04]
    ensures EncField(FFixed64(4, [1, 2, 3, 4, 5, 6, 7, 8])) == [0x21, 1, 2, 3, 4, 5, 6, 7, 8]
  {
    assert EncVarint(0x1D) == [0x1D] && EncVarint(0x21) == [0x21];
    hide EncVarint;
    assert LittleEndian(0x0403, 2) == [3, 4];
    assert LittleEndian(0x0004_0302, 3) == [2] + LittleEndian(0x0403, 2);
    assert LittleEndian(0x0403_0201, 4) == [1] + LittleEndian(0x0004_0302, 3);
    hide LittleEndian;
  }

  /** Zigzag: even words are the natural numbers, odd ones the negative ones, each by half. */
  lemma ZigzagHalves(n: nat)
    requires n < INT_LIMIT
    ensures PbZigzag(2 * n) == n && PbZigzag(2 * n + 1) == -1 - n
  {
  }
}
