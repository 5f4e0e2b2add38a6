/** Small shared vocabulary: optional values, bytes and little-endian words. */
module Common {
  datatype Option<+T> = None | Some(value: T)

  type Byte = b: int | 0 <= b < 256
  type Bytes = seq<Byte>

  /** The first present value, as SQL's two-argument COALESCE. */
  function OrElse<T>(a: Option<T>, b: Option<T>): Option<T> {
    if a.Some? then a else b
  }

  function GetOr<T>(a: Option<T>, default: T): T {
    if a.Some? then a.value else default
  }

  /** The whole of `e` stands in `d` from `pos` on. */
  ghost predicate At<T>(d: seq<T>, pos: nat, e: seq<T>) {
    pos + |e| <= |d| && d[pos..pos + |e|] == e
  }

  lemma AtSplit<T>(d: seq<T>, pos: nat, a: seq<T>, b: seq<T>)
    ensures At(d, pos, a + b) <==> At(d, pos, a) && At(d, pos + |a|, b)
  {
    if At(d, pos, a + b) {
      assert d[pos..pos + |a|] == (a + b)[..|a|];
      assert d[pos + |a|..pos + |a| + |b|] == (a + b)[|a|..];
    }
    if At(d, pos, a) && At(d, pos + |a|, b) {
      assert d[pos..pos + |a + b|] == d[pos..pos + |a|] + d[pos + |a|..pos + |a| + |b|];
    }
  }

  lemma ConsAssoc<T>(s: seq<T>, rest: seq<T>)
    requires s != []
    ensures s + rest == [s[0]] + (s[1..] + rest)
  {
  }

  lemma ConcatAssoc<T>(a: seq<T>, b: seq<T>, c: seq<T>)
    ensures (a + b) + c == a + (b + c)
  {
  }

  lemma Product(q: int, k: int)
    requires q > 0 && k >= 1
    ensures q * k >= q
  {
    assert q * k == q + q * (k - 1);
  }

  lemma ZeroMultiple(q: int, k: int)
    requires q > 0 && -q < q * k < q
    ensures k == 0
  {
    if k >= 1 {
      Product(q, k);
    } else if k <= -1 {
      Product(q, -k);
    }
  }

  /** A number whose division by q leaves quotient d and remainder r. */
  lemma DivisionIsUnique(n: int, q: int, d: int, r: int)
    requires q > 0 && 0 <= r < q && n == q * d + r
    ensures n / q == d && n % q == r
  {
    var e, t := n / q, n % q;
    assert n == q * e + t && 0 <= t < q;
    assert q * (e - d) == r - t;
    ZeroMultiple(q, e - d);
  }

  /** `n` bytes of `v`, least significant first (memcpy on the little-endian boards the sniffer runs on). */
  function LittleEndian(v: nat, n: nat): (r: Bytes)
    ensures |r| == n
  {
    if n == 0 then [] else [v % 256] + LittleEndian(v / 256, n - 1)
  }

  function FromLittleEndian(b: Bytes): nat {
    if b == [] then 0 else b[0] + 256 * FromLittleEndian(b[1..])
  }

  function Pow256(n: nat): (r: nat)
    ensures r > 0
  {
    if n == 0 then 1 else 256 * Pow256(n - 1)
  }

  /** Writing a word and reading it back loses nothing when the word fits the width. */
  lemma {:induction false} LittleEndianInverse(v: nat, n: nat)
    requires v < Pow256(n)
    ensures FromLittleEndian(LittleEndian(v, n)) == v
  {
    if n > 0 {
      assert LittleEndian(v, n)[1..] == LittleEndian(v / 256, n - 1);
      LittleEndianInverse(v / 256, n - 1);
    }
  }

  /** Every byte string is the little-endian form of the word read from it. */
  lemma {:induction false} LittleEndianOnto(b: Bytes)
    ensures FromLittleEndian(b) < Pow256(|b|)
    ensures LittleEndian(FromLittleEndian(b), |b|) == b
  {
    if b != [] {
      LittleEndianOnto(b[1..]);
      var rest := FromLittleEndian(b[1..]);
      assert FromLittleEndian(b) / 256 == rest && FromLittleEndian(b) % 256 == b[0];
      assert b == [b[0]] + b[1..];
    }
  }
}
