/** Values every module shares: optional values, fallible replies and raw bytes. */
module Wrappers {

  datatype Option<+T> = None | Some(value: T) {
    function GetOr(default: T): T { if Some? then value else default }
  }

  /** The outcome of an operation that may fail; `reason` says where it failed. */
  datatype Reply<+T, +E> = Ok(value: T) | Err(reason: E)
}

module Bytes {

  newtype byte = b: int | 0 <= b < 256
  type bytes = seq<byte>

  const NEWLINE: byte := 10
  const SPACE: byte := 32

  lemma SliceOfSlice<T>(s: seq<T>, lo: nat, hi: nat, i: nat, j: nat)
    requires lo <= hi <= |s| && i <= j <= hi - lo
    ensures s[lo..hi][i..j] == s[lo + i..lo + j]
  {
    var a, b := s[lo..hi][i..j], s[lo + i..lo + j];
    assert |a| == |b|;
    assert forall k :: 0 <= k < |a| ==> a[k] == s[lo + i + k] == b[k];
  }

  function Pow256(width: nat): (p: nat)
    ensures p > 0
  {
    if width == 0 then 1 else 256 * Pow256(width - 1)
  }

  /** The low `width` bytes of `n`, least significant byte first. */
  function LittleEndian(n: nat, width: nat): (word: bytes)
    ensures |word| == width
  {
    if width == 0 then [] else [(n % 256) as byte] + LittleEndian(n / 256, width - 1)
  }

  /** A fixed-width word determines the number, as long as the number fits. */
  lemma {:induction false} LittleEndianInjective(m: nat, n: nat, width: nat)
    requires m < Pow256(width) && n < Pow256(width)
    requires LittleEndian(m, width) == LittleEndian(n, width)
    ensures m == n
  {
    if width > 0 {
      var a, b := LittleEndian(m, width), LittleEndian(n, width);
      assert a[0] as int == m % 256 && b[0] as int == n % 256;
      assert a[1..] == LittleEndian(m / 256, width - 1);
      assert b[1..] == LittleEndian(n / 256, width - 1);
      LittleEndianInjective(m / 256, n / 256, width - 1);
    }
  }
}

/** Decimal numbers in ASCII. */
module Decimals {
  import opened Bytes

  predicate Digits(v: bytes) { forall i :: 0 <= i < |v| ==> 48 <= v[i] <= 57 }

  /** The number a string of digits spells. */
  function Number(v: bytes): nat
    requires Digits(v)
  {
    if v == [] then 0 else Number(v[..|v| - 1]) * 10 + (v[|v| - 1] - 48) as nat
  }

  /** The decimal form of a number, without leading zeros. */
  function Decimal(n: nat): (v: bytes)
    ensures v != [] && Digits(v)
  {
    if n < 10 then [(n + 48) as byte] else Decimal(n / 10) + [(n % 10 + 48) as byte]
  }

  lemma {:induction false} NumberOfDecimal(n: nat)
    ensures Number(Decimal(n)) == n && (n > 0 ==> Decimal(n)[0] != 48)
  {
    if n >= 10 {
      NumberOfDecimal(n / 10);
      var v := Decimal(n);
      assert v[..|v| - 1] == Decimal(n / 10) && v[0] == Decimal(n / 10)[0];
    }
  }

  /** The decimal form as text. */
  function Shown(n: nat): (s: string)
    ensures s != "" && forall i :: 0 <= i < |s| ==> '0' <= s[i] <= '9'
  {
    var v := Decimal(n);
    seq(|v|, i requires 0 <= i < |v| => v[i] as char)
  }

  lemma ShownInjective(m: nat, n: nat)
    requires Shown(m) == Shown(n)
    ensures m == n
  {
    var a, b := Decimal(m), Decimal(n);
    assert |a| == |b|;
    forall i | 0 <= i < |a| ensures a[i] == b[i] { assert Shown(m)[i] == Shown(n)[i]; }
    NumberOfDecimal(m);
    NumberOfDecimal(n);
    assert a == b;
  }
}
