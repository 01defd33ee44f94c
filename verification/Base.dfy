/** Bytes, fixed-width integers and their two byte orders. */
module Base {

  newtype byte = b: int | 0 <= b < 256

  type Bytes = seq<byte>

  datatype Option<+T> = None | Some(value: T)

  datatype Result<+T, +E> = Success(value: T) | Failure(error: E)

  lemma SplitAt<T>(s: seq<T>, i: nat)
    requires i <= |s|
    ensures s == s[..i] + s[i..]
  {
  }

  lemma TakeOneMore<T>(s: seq<T>, i: nat)
    requires i < |s|
    ensures s[..i + 1] == s[..i] + [s[i]] && s[..i + 1][..i] == s[..i]
  {
  }

  /** Peeling the last element off a concatenation peels it off the second part. */
  lemma ConcatSnoc<T>(a: seq<T>, b: seq<T>)
    ensures b == [] ==> a + b == a
    ensures b != [] ==>
      && |a + b| > 0 && (a + b)[|a + b| - 1] == b[|b| - 1]
      && (a + b)[..|a + b| - 1] == a + b[..|b| - 1]
  {
  }

  /** `i32` addition as a release build performs it: two's complement, wrapping. */
  function Wrap32(n: int): (r: int)
    ensures -0x8000_0000 <= r < 0x8000_0000
    ensures -0x8000_0000 <= n < 0x8000_0000 ==> r == n
  {
    (n + 0x8000_0000) % 0x1_0000_0000 - 0x8000_0000
  }

  lemma WrapTwice(n: int, k: int)
    ensures Wrap32(Wrap32(n) + k) == Wrap32(n + k)
  {
  }

  lemma Inhabited(s: set<int>)
    ensures s != {} ==> exists x :: x in s
  {
    if forall x :: x !in s { assert s == {}; }
  }

  predicate IsI32(n: int) { -0x8000_0000 <= n < 0x8000_0000 }

  predicate IsI64(n: int) { -0x8000_0000_0000_0000 <= n < 0x8000_0000_0000_0000 }

  function Pow256(k: nat): (r: nat)
    ensures r > 0
  {
    if k == 0 then 1 else 256 * Pow256(k - 1)
  }

  /** The low `k` bytes of `n`, least significant first (`put_u32_le` after an `as u32` cast). */
  function ToLE(n: nat, k: nat): (bs: Bytes)
    ensures |bs| == k
  {
    if k == 0 then [] else [(n % 256) as byte] + ToLE(n / 256, k - 1)
  }

  function FromLE(bs: Bytes): (n: nat)
    ensures n < Pow256(|bs|)
  {
    if bs == [] then 0 else bs[0] as int + 256 * FromLE(bs[1..])
  }

  /** Reading back what was written gives the value modulo the width: exact when it fits. */
  lemma {:induction false} LERoundTrip(n: nat, k: nat)
    ensures n < Pow256(k) ==> FromLE(ToLE(n, k)) == n
  {
    if k > 0 {
      LERoundTrip(n / 256, k - 1);
      assert ToLE(n, k)[1..] == ToLE(n / 256, k - 1);
    }
  }

  /** The low `k` bytes of `n`, most significant first (`to_be_bytes`). */
  function ToBE(n: nat, k: nat): (bs: Bytes)
    ensures |bs| == k
  {
    if k == 0 then [] else ToBE(n / 256, k - 1) + [(n % 256) as byte]
  }

  function FromBE(bs: Bytes): (n: nat)
    ensures n < Pow256(|bs|)
  {
    if bs == [] then 0 else 256 * FromBE(bs[..|bs| - 1]) + bs[|bs| - 1] as int
  }

  lemma {:induction false} BERoundTrip(n: nat, k: nat)
    ensures n < Pow256(k) ==> FromBE(ToBE(n, k)) == n
  {
    if k > 0 {
      BERoundTrip(n / 256, k - 1);
      assert ToBE(n, k)[..k - 1] == ToBE(n / 256, k - 1);
    }
  }

  lemma Widths()
    ensures Pow256(4) == 0x1_0000_0000
    ensures Pow256(8) == 0x1_0000_0000_0000_0000
  {
    assert Pow256(2) == 0x1_0000;
    assert Pow256(4) == 0x1_0000 * Pow256(2);
    assert Pow256(6) == 0x1_0000 * Pow256(4);
    assert Pow256(8) == 0x1_0000 * Pow256(6);
  }

  /** Two's complement: `i32::to_be_bytes` and `i32::from_be_bytes`. */
  function I32Bytes(n: int): (bs: Bytes)
    requires IsI32(n)
    ensures |bs| == 4
  {
    ToBE(if n < 0 then n + 0x1_0000_0000 else n, 4)
  }

  function I32From(bs: Bytes): (n: int)
    requires |bs| == 4
    ensures IsI32(n)
  {
    Widths();
    var u := FromBE(bs);
    if u >= 0x8000_0000 then u - 0x1_0000_0000 else u
  }

  lemma I32RoundTrip(n: int)
    requires IsI32(n)
    ensures I32From(I32Bytes(n)) == n
  {
    Widths();
    BERoundTrip(if n < 0 then n + 0x1_0000_0000 else n, 4);
  }

  function I64Bytes(n: int): (bs: Bytes)
    requires IsI64(n)
    ensures |bs| == 8
  {
    ToBE(if n < 0 then n + 0x1_0000_0000_0000_0000 else n, 8)
  }

  function I64From(bs: Bytes): (n: int)
    requires |bs| == 8
    ensures IsI64(n)
  {
    Widths();
    var u := FromBE(bs);
    if u >= 0x8000_0000_0000_0000 then u - 0x1_0000_0000_0000_0000 else u
  }

  lemma I64RoundTrip(n: int)
    requires IsI64(n)
    ensures I64From(I64Bytes(n)) == n
  {
    Widths();
    BERoundTrip(if n < 0 then n + 0x1_0000_0000_0000_0000 else n, 8);
  }

  /** The two byte orders are each other's reverse, and the little-endian one begins with the low byte. */
  lemma {:induction false} ByteOrders(n: nat, k: nat, i: nat)
    requires i < k
    ensures ToBE(n, k)[k - 1 - i] == ToLE(n, k)[i] && ToLE(n, k)[0] as int == n % 256
    ensures ToLE(n, k)[1..] == ToLE(n / 256, k - 1)
  {
    if i > 0 { ByteOrders(n / 256, k - 1, i - 1); }
  }
}
