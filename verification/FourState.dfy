/** Four-state values and the resolution of several drivers of one wire
    (section 4.6.1 of IEEE 1364-2005, drive strengths aside). */
module FourState {

  datatype V4 = V0 | V1 | Vx | Vz

  /** A vector, least significant bit first. */
  type Vec = seq<V4>

  predicate IsDefined(v: Vec) {
    forall i | 0 <= i < |v| :: v[i] == V0 || v[i] == V1
  }

  predicate AllZ(v: Vec) {
    forall i | 0 <= i < |v| :: v[i] == Vz
  }

  function Fill(bit: V4, n: nat): (r: Vec)
    ensures |r| == n && forall i | 0 <= i < n :: r[i] == bit
  {
    seq(n, _ => bit)
  }

  /** A 2-state net turns an unknown or floating bit into 0. */
  function ToTwoState(bit: V4): V4 {
    if bit == V1 then V1 else V0
  }

  /** Two drivers of one wire. */
  function Wire(a: V4, b: V4): V4 {
    if a == Vz then b else if b == Vz || a == b then a else Vx
  }

  /** The table for two drivers: a floating one gives way, equal ones agree, and any others conflict. */
  lemma WireTable(a: V4, b: V4)
    ensures Wire(a, b) == Wire(b, a) && Wire(Vz, b) == b && Wire(a, a) == a
    ensures a != b && Vz !in [a, b] ==> Wire(a, b) == Vx
  {
  }

  /** All the drivers of one wire, combined two at a time. */
  function WireAll(drivers: seq<V4>): V4 {
    if drivers == [] then Vz else Wire(drivers[0], WireAll(drivers[1..]))
  }

  /** The same resolution as a function of which values are driven. */
  function Resolve(driven: set<V4>): V4 {
    if driven <= {Vz} then Vz
    else if driven <= {Vz, V0} then V0
    else if driven <= {Vz, V1} then V1
    else Vx
  }

  /** Neither the order nor the multiplicity of the drivers matters. */
  lemma {:induction false} ResolveIsWireAll(drivers: seq<V4>)
    ensures WireAll(drivers) == Resolve(set d | d in drivers)
  {
    if drivers != [] {
      var rest := drivers[1..];
      ResolveIsWireAll(rest);
      assert (set d | d in drivers) == {drivers[0]} + (set d | d in rest);
      ResolveInsert(drivers[0], set d | d in rest);
    }
  }

  lemma ResolveInsert(a: V4, s: set<V4>)
    ensures Resolve({a} + s) == Wire(a, Resolve(s))
  {
    if V0 in s {}
    if V1 in s {}
    if Vx in s {}
    if Vz in s {}
  }

  /** A driver at high impedance changes nothing. */
  lemma ResolveIgnoresZ(s: set<V4>, t: set<V4>)
    requires s - {Vz} == t - {Vz}
    ensures Resolve(s) == Resolve(t)
  {
    assert forall a :: a != Vz ==> (a in s <==> a in s - {Vz});
    assert forall a :: a != Vz ==> (a in t <==> a in t - {Vz});
  }
}
