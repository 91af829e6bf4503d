/** Facts about finite maps shared by the models. */
module Maps {

  /** Taking a present key out of a map removes exactly one entry. */
  lemma RemoveShrinks<K, V>(m: map<K, V>, k: K)
    requires k in m
    ensures |m - {k}| == |m| - 1
  {
    assert (m - {k}).Keys == m.Keys - {k};
  }
}
