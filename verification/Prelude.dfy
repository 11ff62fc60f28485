/** Small datatypes and sequence helpers shared by every module. */
module Prelude {

  type byte = b: int | 0 <= b < 256

  datatype Option<+T> = None | Some(value: T)

  /** The source's `anyhow::Result`; error texts are not modelled. */
  datatype Result<+T> = Ok(value: T) | Err {
    predicate IsFailure() { Err? }
    function PropagateFailure<U>(): Result<U>
      requires Err?
    {
      Err
    }
    function Extract(): T
      requires Ok?
    {
      value
    }
  }

  lemma Regrouped<T>(a: seq<T>, b: seq<T>, c: seq<T>)
    ensures a + b + c == a + (b + c)
  {
  }

  /** `width` little-endian base-256 digits of n. */
  function LittleEndian(n: nat, width: nat): (r: seq<byte>)
    ensures |r| == width
  {
    if width == 0 then [] else [n % 256] + LittleEndian(n / 256, width - 1)
  }

  function FromLittleEndian(bytes: seq<byte>): nat {
    if bytes == [] then 0 else bytes[0] + 256 * FromLittleEndian(bytes[1..])
  }

  function Pow(base: nat, exponent: nat): nat {
    if exponent == 0 then 1 else base * Pow(base, exponent - 1)
  }

  /** Little-endian writing loses exactly what does not fit in `width` bytes. */
  lemma {:induction false} LittleEndianRoundTrip(n: nat, width: nat)
    requires n < Pow(256, width)
    ensures FromLittleEndian(LittleEndian(n, width)) == n
  {
    if width > 0 {
      assert n / 256 < Pow(256, width - 1);
      LittleEndianRoundTrip(n / 256, width - 1);
    }
  }

  lemma {:induction false} FromLittleEndianBound(bytes: seq<byte>)
    ensures FromLittleEndian(bytes) < Pow(256, |bytes|)
  {
    if bytes != [] {
      FromLittleEndianBound(bytes[1..]);
    }
  }

  lemma {:induction false} FromLittleEndianAppend(a: seq<byte>, b: seq<byte>)
    ensures FromLittleEndian(a + b) == FromLittleEndian(a) + Pow(256, |a|) * FromLittleEndian(b)
  {
    if a == [] {
      assert a + b == b;
    } else {
      assert (a + b)[1..] == a[1..] + b;
      FromLittleEndianAppend(a[1..], b);
      RegroupProduct(256, Pow(256, |a| - 1), FromLittleEndian(b));
    }
  }

  lemma RegroupProduct(x: int, y: int, z: int)
    ensures x * (y * z) == (x * y) * z
  {
  }

  lemma DivModUnique(n: int, d: int, q: int, r: int)
    requires 0 <= r < d && n == d * q + r
    ensures n / d == q && n % d == r
  {
    var q', r' := n / d, n % d;
    assert d * (q - q') == r' - r && d * (q' - q) == r - r';
    if q > q' {
      MulAtLeast(d, q - q');
    } else if q' > q {
      MulAtLeast(d, q' - q);
    }
  }

  lemma MulAtLeast(d: int, k: int)
    requires d > 0 && k >= 1
    ensures d * k >= d
  {
    assert d * k == d * (k - 1) + d;
  }

  /** Two results one after the other. */
  function Then<T>(a: Result<seq<T>>, b: Result<seq<T>>): Result<seq<T>> {
    if a.Ok? && b.Ok? then Ok(a.value + b.value) else Err
  }

  lemma ThenAssociative<T>(a: Result<seq<T>>, b: Result<seq<T>>, c: Result<seq<T>>)
    ensures Then(Then(a, b), c) == Then(a, Then(b, c))
  {
    if a.Ok? && b.Ok? && c.Ok? {
      assert a.value + b.value + c.value == a.value + (b.value + c.value);
    }
  }

  lemma ThenUnit<T>(r: Result<seq<T>>)
    ensures Then(Ok([]), r) == r && Then(r, Ok([])) == r
  {
    if r.Ok? {
      assert [] + r.value == r.value && r.value + [] == r.value;
    }
  }

  /** Items already read, in front of what the rest of the input yields. */
  function Prepend<T>(items: seq<T>, r: Result<(seq<T>, seq<byte>)>): Result<(seq<T>, seq<byte>)> {
    if r.Ok? then Ok((items + r.value.0, r.value.1)) else Err
  }

  lemma PrependOne<T>(items: seq<T>, x: T, r: Result<(seq<T>, seq<byte>)>)
    ensures Prepend(items, Prepend([x], r)) == Prepend(items + [x], r)
  {
    if r.Ok? {
      assert items + [x] + r.value.0 == items + ([x] + r.value.0);
    }
  }

  lemma PrependNothing<T>(items: seq<T>, r: Result<(seq<T>, seq<byte>)>)
    ensures Prepend([], r) == r
    ensures r.Ok? && r.value.0 == [] ==> Prepend(items, r) == Ok((items, r.value.1))
  {
    if r.Ok? {
      assert [] + r.value.0 == r.value.0 && items + [] == items;
    }
  }
}
