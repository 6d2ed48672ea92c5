/** Python's `d[k] = v` executed once per pair, in order: the dictionary-filling
    loop shared by the response parser and the params-file reader. */
module LastWins {

  /** The keys the pairs mention. */
  function KeysOf<K, V>(ps: seq<(K, V)>): set<K> {
    set i | 0 <= i < |ps| :: ps[i].0
  }

  /** `m` after assigning every pair of `ps`, first to last. */
  function Assign<K, V>(m: map<K, V>, ps: seq<(K, V)>): (r: map<K, V>)
    decreases |ps|
    ensures r.Keys == m.Keys + KeysOf(ps)
  {
    if ps == [] then m else Assign(m[ps[0].0 := ps[0].1], ps[1..])
  }

  /** A key no pair mentions keeps its old value. */
  lemma {:induction false} AssignUntouched<K, V>(m: map<K, V>, ps: seq<(K, V)>, k: K)
    requires k in m
    requires forall i :: 0 <= i < |ps| ==> ps[i].0 != k
    ensures k in Assign(m, ps) && Assign(m, ps)[k] == m[k]
    decreases |ps|
  {
    if ps != [] {
      AssignUntouched(m[ps[0].0 := ps[0].1], ps[1..], k);
    }
  }

  /** The last pair for a key decides its value: later assignments overwrite
      earlier ones. */
  lemma {:induction false} AssignLastWins<K, V>(m: map<K, V>, ps: seq<(K, V)>, i: int)
    requires 0 <= i < |ps|
    requires forall j :: i < j < |ps| ==> ps[j].0 != ps[i].0
    ensures ps[i].0 in Assign(m, ps) && Assign(m, ps)[ps[i].0] == ps[i].1
    decreases |ps|
  {
    if i == 0 {
      AssignUntouched(m[ps[0].0 := ps[0].1], ps[1..], ps[0].0);
    } else {
      AssignLastWins(m[ps[0].0 := ps[0].1], ps[1..], i - 1);
    }
  }

  /** Assigning two runs of pairs is assigning their concatenation. */
  lemma {:induction false} AssignConcat<K, V>(m: map<K, V>, ps: seq<(K, V)>, qs: seq<(K, V)>)
    ensures Assign(Assign(m, ps), qs) == Assign(m, ps + qs)
    decreases |ps|
  {
    if ps != [] {
      assert (ps + qs)[0] == ps[0] && (ps + qs)[1..] == ps[1..] + qs;
      AssignConcat(m[ps[0].0 := ps[0].1], ps[1..], qs);
    } else {
      assert ps + qs == qs;
    }
  }

  lemma AssignNone<K, V>(m: map<K, V>)
    ensures Assign(m, []) == m
  {
  }

  lemma AssignSingle<K, V>(m: map<K, V>, p: (K, V))
    ensures Assign(m, [p]) == m[p.0 := p.1]
  {
    assert [p][1..] == [];
  }
}
