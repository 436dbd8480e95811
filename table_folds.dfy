/**
 * The two ways the tools fill a lookup table from a list of candidate
 * pairs, where a candidate that fails the caller's filter is `None`:
 * "first wins" (insert only when the key is absent) and "overwrite"
 * (always assign, so the last candidate for a key wins).
 */
module TableFolds {
  import opened Wrappers

  /** The table built from `cs` in order, a key keeping its first value. */
  function FirstWins<K(==), V>(cs: seq<Option<(K, V)>>): map<K, V>
  {
    if cs == [] then map[]
    else
      var m := FirstWins(cs[..|cs| - 1]);
      var c := cs[|cs| - 1];
      if c.None? || c.value.0 in m then m else m[c.value.0 := c.value.1]
  }

  /** One more candidate: inserted only when present and its key is new. */
  lemma FirstWinsSnoc<K, V>(cs: seq<Option<(K, V)>>, c: Option<(K, V)>)
    ensures FirstWins(cs + [c]) == if c.None? || c.value.0 in FirstWins(cs) then FirstWins(cs) else FirstWins(cs)[c.value.0 := c.value.1]
  {
    assert (cs + [c])[..|cs|] == cs;
  }

  /** Candidate `i` is present and has key `k`. */
  predicate HasKeyAt<K(==), V>(cs: seq<Option<(K, V)>>, k: K, i: int) {
    0 <= i < |cs| && cs[i].Some? && cs[i].value.0 == k
  }

  /** Candidate `i` is the first one with key `k`. */
  predicate FirstKeyAt<K(==), V>(cs: seq<Option<(K, V)>>, k: K, i: int) {
    HasKeyAt(cs, k, i) && forall j :: 0 <= j < i ==> !HasKeyAt(cs, k, j)
  }

  /** Candidate `i` is the last one with key `k`. */
  predicate LastKeyAt<K(==), V>(cs: seq<Option<(K, V)>>, k: K, i: int) {
    HasKeyAt(cs, k, i) && forall j :: i < j < |cs| ==> !HasKeyAt(cs, k, j)
  }

  /** A key is in the table exactly when some candidate has it, with the value of the first such candidate. */
  lemma {:induction false} FirstWinsSpec<K, V>(cs: seq<Option<(K, V)>>, k: K)
    ensures k in FirstWins(cs) <==> exists i :: HasKeyAt(cs, k, i)
    ensures k in FirstWins(cs) ==> exists i :: FirstKeyAt(cs, k, i) && FirstWins(cs)[k] == cs[i].value.1
  {
    if cs != [] {
      var n := |cs| - 1;
      var pre := cs[..n];
      FirstWinsSpec(pre, k);
      assert forall j :: 0 <= j < n ==> pre[j] == cs[j];
      assert forall j :: 0 <= j < n ==> (HasKeyAt(cs, k, j) <==> HasKeyAt(pre, k, j));
      if k in FirstWins(pre) {
        var i :| FirstKeyAt(pre, k, i) && FirstWins(pre)[k] == pre[i].value.1;
        assert FirstKeyAt(cs, k, i);
      } else if HasKeyAt(cs, k, n) {
        assert forall j :: 0 <= j < n ==> !HasKeyAt(pre, k, j);
        assert FirstKeyAt(cs, k, n);
      } else {
        forall i | 0 <= i < |cs| ensures !HasKeyAt(cs, k, i) {
          if i < n {
            assert !HasKeyAt(pre, k, i);
          }
        }
      }
    }
  }

  /** `m` with every present candidate assigned in order, so the last candidate for a key wins. */
  function Overwrite<K(==), V>(m: map<K, V>, cs: seq<Option<(K, V)>>): map<K, V>
  {
    if cs == [] then m
    else
      var r := Overwrite(m, cs[..|cs| - 1]);
      var c := cs[|cs| - 1];
      if c.None? then r else r[c.value.0 := c.value.1]
  }

  /** One more candidate: assigned whenever present. */
  lemma OverwriteSnoc<K, V>(m: map<K, V>, cs: seq<Option<(K, V)>>, c: Option<(K, V)>)
    ensures Overwrite(m, cs + [c]) == if c.None? then Overwrite(m, cs) else Overwrite(m, cs)[c.value.0 := c.value.1]
  {
    assert (cs + [c])[..|cs|] == cs;
  }

  /** After the overwrite a key is present when it was before or some candidate has it; the last such candidate decides its value. */
  lemma {:induction false} OverwriteSpec<K, V>(m: map<K, V>, cs: seq<Option<(K, V)>>, k: K)
    ensures k in Overwrite(m, cs) <==> k in m || exists i :: HasKeyAt(cs, k, i)
    ensures (exists i :: HasKeyAt(cs, k, i)) ==>
      exists i :: LastKeyAt(cs, k, i) && k in Overwrite(m, cs) && Overwrite(m, cs)[k] == cs[i].value.1
    ensures (forall i :: !HasKeyAt(cs, k, i)) && k in m ==> Overwrite(m, cs)[k] == m[k]
  {
    if cs != [] {
      var n := |cs| - 1;
      var pre := cs[..n];
      OverwriteSpec(m, pre, k);
      assert forall j :: 0 <= j < n ==> pre[j] == cs[j];
      if HasKeyAt(cs, k, n) {
        assert LastKeyAt(cs, k, n);
      } else {
        assert forall j :: 0 <= j < n ==> (HasKeyAt(cs, k, j) <==> HasKeyAt(pre, k, j));
        if exists i :: HasKeyAt(cs, k, i) {
          var i0 :| HasKeyAt(cs, k, i0);
          assert HasKeyAt(pre, k, i0);
          var i :| LastKeyAt(pre, k, i) && Overwrite(m, pre)[k] == pre[i].value.1;
          assert LastKeyAt(cs, k, i);
        }
      }
    }
  }
}
