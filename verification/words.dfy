/** Unsigned 64-bit counters, and sums over sequences. */
module Words {

  const TWO_64: int := 0x1_0000_0000_0000_0000

  type u64 = x: int | 0 <= x < 0x1_0000_0000_0000_0000

  datatype Option<+T> = None | Some(value: T)

  /** `a + n` in a 64-bit register. */
  function Add64(a: u64, n: nat): (r: u64) {
    (a + n) % 0x1_0000_0000_0000_0000
  }

  /** `a - b` in a 64-bit register. */
  function Sub64(a: u64, b: u64): (r: u64) {
    if b <= a then a - b else a - b + 0x1_0000_0000_0000_0000
  }

  /** What a 64-bit register shows of an unbounded count. */
  function Low64(n: nat): (r: u64) {
    n % 0x1_0000_0000_0000_0000
  }

  lemma AddLow64(n: nat, d: nat)
    ensures Add64(Low64(n), d) == Low64(n + d)
  {
  }

  /** The wrapped difference of two readings is the true increment when that increment fits in a register. */
  lemma SubLow64(before: nat, after: nat)
    requires before <= after < before + TWO_64
    ensures Sub64(Low64(after), Low64(before)) == after - before
  {
    var q0, q1 := before / 0x1_0000_0000_0000_0000, after / 0x1_0000_0000_0000_0000;
    assert q0 <= q1 <= q0 + 1;
  }

  ghost predicate Distinct<T(!new)>(s: seq<T>) {
    forall i, j :: 0 <= i < j < |s| ==> s[i] != s[j]
  }

  function Sum(s: seq<nat>): nat {
    if s == [] then 0 else s[0] + Sum(s[1..])
  }

  lemma {:induction false} SumAppend(s: seq<nat>, x: nat)
    ensures Sum(s + [x]) == Sum(s) + x
  {
    if s == [] {
    } else {
      assert (s + [x])[1..] == s[1..] + [x];
      SumAppend(s[1..], x);
    }
  }

  lemma {:induction false} SumUpdate(s: seq<nat>, i: nat, x: nat)
    requires i < |s|
    ensures Sum(s[i := x]) + s[i] == Sum(s) + x
  {
    if i == 0 {
      assert s[0 := x][1..] == s[1..];
    } else {
      assert s[i := x][1..] == s[1..][i - 1 := x];
      SumUpdate(s[1..], i - 1, x);
    }
  }

  lemma {:induction false} SumMonotone(a: seq<nat>, b: seq<nat>)
    requires |a| == |b|
    requires forall i :: 0 <= i < |a| ==> a[i] <= b[i]
    ensures Sum(a) <= Sum(b)
  {
    if a != [] {
      SumMonotone(a[1..], b[1..]);
    }
  }

  lemma {:induction false} SumMember(s: seq<nat>, i: nat)
    requires i < |s|
    ensures s[i] <= Sum(s)
  {
    if i > 0 {
      SumMember(s[1..], i - 1);
    }
  }

  lemma {:induction false} SumZero(n: nat)
    ensures Sum(seq(n, _ => 0)) == 0
  {
    if n > 0 {
      assert seq(n, _ => 0)[1..] == seq(n - 1, _ => 0);
      SumZero(n - 1);
    }
  }

  /** The register total of `s`, added up one 64-bit word at a time. */
  function Sum64(s: seq<u64>): u64 {
    if s == [] then 0 else Add64(Sum64(s[..|s| - 1]), s[|s| - 1])
  }

  /** Adding wrapped readings in a wrapped register gives the wrapped true sum. */
  lemma {:induction false} Sum64OfLow64(s: seq<u64>, t: seq<nat>)
    requires |s| == |t|
    requires forall i :: 0 <= i < |s| ==> s[i] == Low64(t[i])
    ensures Sum64(s) == Low64(Sum(t))
  {
    if s != [] {
      var n := |s| - 1;
      Sum64OfLow64(s[..n], t[..n]);
      assert t == t[..n] + [t[n]];
      SumAppend(t[..n], t[n]);
      AddLow64(Sum(t[..n]), t[n]);
      AddWrapped(Sum(t[..n]), t[n]);
    }
  }

  lemma AddWrapped(a: nat, b: nat)
    ensures Add64(Low64(a), Low64(b)) == Low64(a + b)
  {
    var m := 0x1_0000_0000_0000_0000;
    assert (a % m + b % m) % m == (a + b) % m;
  }
}
