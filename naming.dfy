/** Identities of worker handles.

    The pool map is keyed by the string "{group name}-{index}" and each worker is
    named "{group name}-Worker-{ordinal}".  The model keys the pool by the pair
    (group name, index) instead; the lemmas at the end of this module show that
    both string renderings are injective, so nothing is lost by that choice. */
module Naming {

  /** The pool key "{group}-{index}" of the index-th worker of a group. */
  datatype WorkerKey = WorkerKey(group: string, index: nat)

  /** The display name "{group}-Worker-{ordinal}" of a worker. */
  datatype WorkerName = WorkerName(group: string, ordinal: nat)

  /** The name a worker created under key k is given: ordinals count from 1. */
  function NameFor(k: WorkerKey): WorkerName
  {
    WorkerName(k.group, k.index + 1)
  }

  function Digit(d: nat): char
    requires d < 10
  {
    (('0' as int) + d) as char
  }

  /** Python's str() of a non-negative int: decimal, no leading zeros. */
  function Decimal(n: nat): (s: string)
    ensures |s| > 0
    ensures n >= 10 ==> |s| >= 2
    ensures forall i :: 0 <= i < |s| ==> '0' <= s[i] <= '9'
  {
    if n < 10 then [Digit(n)] else Decimal(n / 10) + [Digit(n % 10)]
  }

  function KeyString(k: WorkerKey): string
  {
    k.group + "-" + Decimal(k.index)
  }

  function NameString(w: WorkerName): string
  {
    w.group + "-Worker-" + Decimal(w.ordinal)
  }

  /** Distinct numbers have distinct decimal renderings. */
  lemma {:induction false} DecimalInjective(m: nat, n: nat)
    requires Decimal(m) == Decimal(n)
    ensures m == n
  {
    var s := Decimal(m);
    if m < 10 && n < 10 {
      assert s[0] == Digit(m) && s[0] == Digit(n);
    } else if m >= 10 && n >= 10 {
      assert s[|s| - 1] == Digit(m % 10) && s[|s| - 1] == Digit(n % 10);
      assert Decimal(m / 10) == s[..|s| - 1] == Decimal(n / 10);
      DecimalInjective(m / 10, n / 10);
    }
  }

  /** In x + "-" + d with a dash-free d, the dash after x is the last one. */
  lemma DashesOf(x: string, d: string)
    requires forall i :: 0 <= i < |d| ==> d[i] != '-'
    ensures (x + "-" + d)[|x|] == '-'
    ensures forall i :: |x| < i < |x + "-" + d| ==> (x + "-" + d)[i] != '-'
  {
    var s := x + "-" + d;
    forall i | |x| < i < |s|
      ensures s[i] != '-'
    {
      assert s[i] == d[i - |x| - 1];
    }
  }

  /** A string x + "-" + d whose suffix d holds no dash determines x and d. */
  lemma SplitAtLastDash(x: string, d: string, y: string, e: string)
    requires forall i :: 0 <= i < |d| ==> d[i] != '-'
    requires forall i :: 0 <= i < |e| ==> e[i] != '-'
    requires x + "-" + d == y + "-" + e
    ensures x == y && d == e
  {
    var s := x + "-" + d;
    DashesOf(x, d);
    DashesOf(y, e);
    assert s[|x|] == '-' && s[|y|] == '-';
    assert |x| == |y|;
    assert x == s[..|x|] && y == s[..|y|];
    assert d == s[|x| + 1..] && e == s[|y| + 1..];
  }

  lemma DecimalHasNoDash(n: nat)
    ensures forall i :: 0 <= i < |Decimal(n)| ==> Decimal(n)[i] != '-'
  {
  }

  /** Two different pool keys never render to the same dictionary key. */
  lemma KeyStringInjective(a: WorkerKey, b: WorkerKey)
    requires KeyString(a) == KeyString(b)
    ensures a == b
  {
    DecimalHasNoDash(a.index);
    DecimalHasNoDash(b.index);
    SplitAtLastDash(a.group, Decimal(a.index), b.group, Decimal(b.index));
    DecimalInjective(a.index, b.index);
  }

  /** Two different worker names never render to the same string. */
  lemma NameStringInjective(a: WorkerName, b: WorkerName)
    requires NameString(a) == NameString(b)
    ensures a == b
  {
    DecimalHasNoDash(a.ordinal);
    DecimalHasNoDash(b.ordinal);
    assert NameString(a) == (a.group + "-Worker") + "-" + Decimal(a.ordinal);
    assert NameString(b) == (b.group + "-Worker") + "-" + Decimal(b.ordinal);
    SplitAtLastDash(a.group + "-Worker", Decimal(a.ordinal), b.group + "-Worker", Decimal(b.ordinal));
    var x := a.group + "-Worker";
    assert a.group == x[..|a.group|];
    assert b.group == (b.group + "-Worker")[..|b.group|];
    DecimalInjective(a.ordinal, b.ordinal);
  }
}
