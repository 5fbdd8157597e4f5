/** Fixed-width unsigned integers and their octets. */
module Bytes {

  type Byte = b: int | 0 <= b < 0x100
  type U16 = x: int | 0 <= x < 0x1_0000
  type U32 = x: int | 0 <= x < 0x1_0000_0000

  datatype Option<+T> = None | Some(value: T)

  function Min(a: int, b: int): int {
    if a <= b then a else b
  }

  /** How many values `n` octets can tell apart. */
  function Limit(n: nat): (l: nat)
    ensures l > 0
  {
    if n == 0 then 1 else 0x100 * Limit(n - 1)
  }

  /** The low `n` octets of `x`, most significant first. */
  function Big(x: nat, n: nat): (s: seq<Byte>)
    ensures |s| == n
  {
    if n == 0 then [] else Big(x / 0x100, n - 1) + [x % 0x100]
  }

  /** The number whose octets, most significant first, are `s`. */
  function Join(s: seq<Byte>): nat {
    if s == [] then 0 else Join(s[..|s| - 1]) * 0x100 + s[|s| - 1]
  }

  lemma Limits()
    ensures Limit(1) == 0x100 && Limit(2) == 0x1_0000 && Limit(3) == 0x100_0000 && Limit(4) == 0x1_0000_0000
  {
    assert Limit(3) == 0x100 * Limit(2);
  }

  lemma {:induction false} JoinBig(x: nat, n: nat)
    requires x < Limit(n)
    ensures Join(Big(x, n)) == x
  {
    if n > 0 {
      JoinBig(x / 0x100, n - 1);
      assert Big(x, n)[..n - 1] == Big(x / 0x100, n - 1);
    }
  }

  lemma {:induction false} BigJoin(s: seq<Byte>)
    ensures Join(s) < Limit(|s|)
    ensures Big(Join(s), |s|) == s
  {
    if s != [] {
      BigJoin(s[..|s| - 1]);
      assert s == s[..|s| - 1] + [s[|s| - 1]];
    }
  }

  /** The octets of a 32-bit word by shifts: `x >> 24`, `x >> 16`, `x >> 8` and `x`, each cut to eight bits. */
  lemma BigByShifts(x: U32)
    ensures Big(x, 4) == [x / 0x100_0000, x / 0x1_0000 % 0x100, x / 0x100 % 0x100, x % 0x100]
    ensures x < 0x1_0000 ==> Big(x, 2) == [x / 0x100, x % 0x100]
  {
    var x1, x2, x3 := x / 0x100, x / 0x1_0000, x / 0x100_0000;
    assert x1 / 0x100 == x2 && x2 / 0x100 == x3 && x3 % 0x100 == x3;
    assert Big(x3, 1) == Big(x3 / 0x100, 0) + [x3];
    assert Big(x2, 2) == Big(x3, 1) + [x2 % 0x100];
    assert Big(x1, 3) == Big(x2, 2) + [x1 % 0x100];
    assert Big(x, 2) == Big(x1, 1) + [x % 0x100];
  }

  /** Two octets read most significant first. */
  function Read16(data: seq<Byte>, at: nat): U16
    requires at + 2 <= |data|
  {
    BigJoin(data[at..at + 2]);
    Limits();
    Join(data[at..at + 2])
  }

  /** Four octets read most significant first. */
  function Read32(data: seq<Byte>, at: nat): U32
    requires at + 4 <= |data|
  {
    BigJoin(data[at..at + 4]);
    Limits();
    Join(data[at..at + 4])
  }

  /** The octets stand in the data at the position. */
  ghost predicate OctetsAt(data: seq<Byte>, position: nat, octets: seq<Byte>) {
    position + |octets| <= |data| && forall k :: 0 <= k < |octets| ==> octets[k] == data[position + k]
  }

  lemma OctetsSplit(data: seq<Byte>, position: nat, a: seq<Byte>, b: seq<Byte>)
    requires OctetsAt(data, position, a + b)
    ensures OctetsAt(data, position, a) && OctetsAt(data, position + |a|, b)
  {
    var c := a + b;
    assert forall k :: 0 <= k < |a| ==> a[k] == c[k];
    assert forall k :: 0 <= k < |b| ==> b[k] == c[|a| + k];
  }

  lemma OctetsSlice(data: seq<Byte>, position: nat, octets: seq<Byte>)
    requires OctetsAt(data, position, octets)
    ensures data[position..position + |octets|] == octets
  {
  }

  lemma Read16Octets(data: seq<Byte>, at: nat)
    requires at + 2 <= |data|
    ensures var high: int, low: int := data[at], data[at + 1]; Read16(data, at) == 0x100 * high + low
  {
    var s := data[at..at + 2];
    assert s[..1] == [data[at]] && s[..1][..0] == [];
    assert Join(s[..1]) == data[at];
  }

  lemma Assoc<T>(a: seq<T>, b: seq<T>, c: seq<T>)
    ensures (a + b) + c == a + (b + c)
  {
  }

  lemma SliceOfSlice<T>(p: seq<T>, a: nat, b: nat, i: nat, j: nat)
    requires i <= j && a + j <= b <= |p|
    ensures p[a..b][i..j] == p[a + i..a + j]
  {
    var s, t := p[a..b][i..j], p[a + i..a + j];
    assert |s| == |t| && forall x :: 0 <= x < |s| ==> s[x] == t[x];
  }
}
