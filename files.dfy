/**
 * The files a run of writes leaves behind, as a map from path to contents.
 * Writing a path that was written before replaces its contents, as opening
 * a file with mode "w" does.
 */
module Files {
  /** The files after a sequence of writes: a later write to the same path overwrites an earlier one. */
  function Overwrite<K, V>(base: map<K, V>, writes: seq<(K, V)>): map<K, V>
    decreases |writes|
  {
    if writes == [] then base
    else
      var w := writes[|writes| - 1];
      Overwrite(base, writes[..|writes| - 1])[w.0 := w.1]
  }

  /** One more write updates the map at its path. */
  lemma OverwriteSnoc<K, V>(base: map<K, V>, writes: seq<(K, V)>, w: (K, V))
    ensures Overwrite(base, writes + [w]) == Overwrite(base, writes)[w.0 := w.1]
  {
    assert (writes + [w])[..|writes|] == writes;
  }

  /** Two runs of writes one after the other are one run of all of them. */
  lemma {:induction false} OverwriteAppend<K, V>(base: map<K, V>, first: seq<(K, V)>, second: seq<(K, V)>)
    ensures Overwrite(base, first + second) == Overwrite(Overwrite(base, first), second)
    decreases |second|
  {
    if second == [] {
      assert first + second == first;
    } else {
      var n := |second| - 1;
      var w := second[n];
      assert first + second == (first + second[..n]) + [w];
      assert second == second[..n] + [w];
      OverwriteSnoc(base, first + second[..n], w);
      OverwriteSnoc(Overwrite(base, first), second[..n], w);
      OverwriteAppend(base, first, second[..n]);
    }
  }

  /** Exactly the paths that were there before or were written are in the map. */
  lemma {:induction false} OverwriteKeys<K, V>(base: map<K, V>, writes: seq<(K, V)>, k: K)
    ensures k in Overwrite(base, writes) <==> k in base || exists i :: 0 <= i < |writes| && writes[i].0 == k
    decreases |writes|
  {
    if writes != [] {
      var n := |writes| - 1;
      var init := writes[..n];
      OverwriteKeys(base, init, k);
      if k in base {
      } else if k in Overwrite(base, init) {
        var i :| 0 <= i < |init| && init[i].0 == k;
        assert writes[i] == init[i];
      } else if k == writes[n].0 {
        assert writes[n].0 == k;
      } else {
        forall i | 0 <= i < |writes|
          ensures writes[i].0 != k
        {
          if i < n {
            assert writes[i] == init[i];
          }
        }
      }
    }
  }

  /** A path holds what the last write to it wrote. */
  lemma {:induction false} OverwriteLast<K, V>(base: map<K, V>, writes: seq<(K, V)>, i: nat)
    requires i < |writes|
    requires forall j :: i < j < |writes| ==> writes[j].0 != writes[i].0
    ensures writes[i].0 in Overwrite(base, writes)
    ensures Overwrite(base, writes)[writes[i].0] == writes[i].1
    decreases |writes|
  {
    var n := |writes| - 1;
    if i < n {
      var init := writes[..n];
      assert forall j :: i < j < |init| ==> init[j] == writes[j];
      OverwriteLast(base, init, i);
    }
  }

  /** A path no write touches keeps what it held before. */
  lemma {:induction false} OverwriteUntouched<K, V>(base: map<K, V>, writes: seq<(K, V)>, k: K)
    requires k in base
    requires forall j :: 0 <= j < |writes| ==> writes[j].0 != k
    ensures k in Overwrite(base, writes) && Overwrite(base, writes)[k] == base[k]
    decreases |writes|
  {
    if writes != [] {
      var n := |writes| - 1;
      var init := writes[..n];
      assert forall j :: 0 <= j < |init| ==> init[j] == writes[j];
      OverwriteUntouched(base, init, k);
    }
  }
}
