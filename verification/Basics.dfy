/** What the components share: bytes, machine words, optional values, transport protocols, and counting in
    finite sets of numbers. */
module Basics {

  type Byte = x: nat | x < 256

  const WORD: nat := 0x1_0000_0000

  datatype Option<+T> = None | Some(value: T)

  datatype Protocol = Udp | Tcp

  /** The numbers below n. */
  ghost function Below(n: nat): (b: set<nat>)
    ensures |b| == n && forall i: nat :: i in b <==> i < n
  {
    if n == 0 then {} else Below(n - 1) + {n - 1}
  }

  lemma SubsetSize(a: set<nat>, b: set<nat>)
    requires a <= b
    ensures |a| <= |b|
  {
    assert b == a + (b - a);
    assert |b| == |a| + |b - a|;
  }

  lemma NoKeyNoValue<K, V>(m: map<K, V>, v: V)
    ensures (forall k :: k in m ==> m[k] != v) ==> v !in m.Values
  {}

  /** A key that a value of the map is stored under. */
  ghost function KeyOf<K, V>(m: map<K, V>, v: V): (k: K)
    requires v in m.Values
    ensures k in m && m[k] == v
  {
    NoKeyNoValue(m, v);
    var k :| k in m && m[k] == v;
    k
  }
}
