/** Small types and sequence facts shared by the other modules. */
module Basics {

  datatype Option<+T> = None | Some(value: T)

  datatype Result<+T, +E> = Ok(value: T) | Err(error: E)

  type byte = x: int | 0 <= x < 256

  type Bytes = seq<byte>

  function Max(a: int, b: int): int {
    if a < b then b else a
  }

  /** Concatenation of a sequence of sequences, in order. */
  function Flatten<T>(parts: seq<seq<T>>): seq<T> {
    if parts == [] then [] else parts[0] + Flatten(parts[1..])
  }

  lemma FlattenNone<T>()
    ensures Flatten<T>([]) == []
  {}

  lemma Assoc<T>(a: seq<T>, b: seq<T>, c: seq<T>)
    ensures (a + b) + c == a + (b + c)
  {}

  lemma FlattenCons<T>(first: seq<T>, rest: seq<seq<T>>)
    ensures Flatten([first] + rest) == first + Flatten(rest)
  {
    assert ([first] + rest)[1..] == rest;
  }

  lemma {:induction false} FlattenAppend<T>(a: seq<seq<T>>, b: seq<seq<T>>)
    ensures Flatten(a + b) == Flatten(a) + Flatten(b)
  {
    hide Flatten;
    if a == [] {
      FlattenNone<T>();
      assert a + b == b && [] + Flatten(b) == Flatten(b);
    } else {
      var rest := a[1..];
      FlattenAppend(rest, b);
      FlattenCons(a[0], rest);
      FlattenCons(a[0], rest + b);
      Assoc([a[0]], rest, b);
      Assoc(a[0], Flatten(rest), Flatten(b));
      assert a == [a[0]] + rest;
    }
  }

  lemma FlattenSnoc<T>(parts: seq<seq<T>>, last: seq<T>)
    ensures Flatten(parts + [last]) == Flatten(parts) + last
  {
    FlattenAppend(parts, [last]);
    assert Flatten([last]) == last + Flatten([]);
  }

  /** A big-endian 16-bit number: `struct.pack("!H", n)`. */
  function U16(n: nat): Bytes
    requires n < 65536
  {
    [n / 256, n % 256]
  }

  /** The 16-bit word at a position, and the 32-bit one. */
  function U16At(b: Bytes, off: nat): (n: nat)
    requires off + 1 < |b|
    ensures n < 65536
  {
    256 * b[off] as int + b[off + 1] as int
  }

  function U32At(b: Bytes, off: nat): nat
    requires off + 3 < |b|
  {
    65536 * U16At(b, off) + U16At(b, off + 2)
  }

  function FromU16(b: Bytes): (n: nat)
    requires |b| >= 2
    ensures n < 65536
  {
    U16At(b, 0)
  }

  lemma U16RoundTrip(n: nat, tail: Bytes)
    requires n < 65536
    ensures FromU16(U16(n) + tail) == n
  {
    assert (U16(n) + tail)[0] == n / 256 && (U16(n) + tail)[1] == n % 256;
  }

  // ---- division ------------------------------------------------------------------------------

  lemma MulStep(k: nat, q: nat, size: nat)
    requires k < q
    ensures size * k + size <= size * q
  {
    var d := q - k - 1;
    assert size * d >= 0;
    assert size * q == size * (k + 1 + d) == size * k + size + size * d;
  }

  lemma QuotientIs(n: nat, k: nat, q: nat, kq: nat, r: nat)
    requires k >= 1 && kq == k * q && n == kq + r && r < k
    ensures n / k == q
  {
    if n / k < q {
      MulStep(n / k, q, k);
    } else if q < n / k {
      MulStep(q, n / k, k);
    }
  }

  /** Dividing twice is dividing by the product. */
  lemma DivTwice(n: nat, a: nat, b: nat, d: nat)
    requires a >= 1 && b >= 1 && d == a * b
    ensures n / a / b == n / d
  {
    Remainders(n, a, n / a, n % a, b, n / a / b, n / a % b, d);
  }

  lemma Remainders(n: nat, a: nat, m: nat, s: nat, b: nat, q: nat, r: nat, d: nat)
    requires n == a * m + s && s < a && m == b * q + r && r < b && d == a * b
    ensures d >= 1 && n / d == q
  {
    Spread(a, b, q, r, m, d);
    MulStep(r, b, a);
    QuotientIs(n, d, q, d * q, a * r + s);
  }

  lemma Spread(a: nat, b: nat, q: nat, r: nat, m: nat, d: nat)
    requires m == b * q + r && d == a * b
    ensures a * m == d * q + a * r
  {
    assert a * (b * q + r) == a * (b * q) + a * r;
    assert a * (b * q) == (a * b) * q;
  }

  /** A finite set included in another is no larger. */
  lemma {:induction false} SubsetSize<T>(a: set<T>, b: set<T>)
    requires a <= b
    ensures |a| <= |b|
  {
    if a != {} {
      var x :| x in a;
      SubsetSize(a - {x}, b - {x});
    }
  }
}
