/** JavaScript objects used as dictionaries. A dictionary is a `map`; enumerating one yields its
  * entries in some order the caller cannot rely on, so what is proved holds for every order.
  */
module Records {
  import opened Digraph

  datatype Option<+T> = None | Some(value: T)

  method Keys<K(==), V>(m: map<K, V>) returns (ks: seq<K>)
    ensures NoDup(ks) && Elems(ks) == m.Keys
  {
    var rest := m.Keys;
    ks := [];
    while rest != {}
      invariant NoDup(ks) && Elems(ks) + rest == m.Keys && Elems(ks) !! rest
      decreases rest
    {
      var k :| k in rest;
      assert k !in Elems(ks);
      ElemsAppend(ks, [k]);
      ks, rest := ks + [k], rest - {k};
    }
  }

  method Entries<K(==), V(==)>(m: map<K, V>) returns (es: seq<(K, V)>)
    ensures |es| == |m|
    ensures forall i :: 0 <= i < |es| ==> es[i].0 in m && m[es[i].0] == es[i].1
    ensures forall i, j :: 0 <= i < j < |es| ==> es[i].0 != es[j].0
    ensures forall k :: k in m ==> (k, m[k]) in es
    ensures Elems(es) == m.Items
  {
    var ks := Keys(m);
    es := seq(|ks|, i requires 0 <= i < |ks| => assert ks[i] in Elems(ks); (ks[i], m[ks[i]]));
    forall k | k in m ensures (k, m[k]) in es {
      assert k in Elems(ks);
      var i :| 0 <= i < |ks| && ks[i] == k;
      assert es[i] == (k, m[k]);
    }
    forall e | e in Elems(es) ensures e in m.Items {
      var i :| 0 <= i < |es| && es[i] == e;
      assert ks[i] in Elems(ks);
    }
    forall e | e in m.Items ensures e in Elems(es) {
      assert e == (e.0, m[e.0]);
    }
    NoDupSize(ks);
    assert |ks| == |m.Keys|;
  }

  method Values<K(==), V(==)>(m: map<K, V>) returns (vs: seq<V>)
    ensures |vs| == |m| && Elems(vs) == m.Values
  {
    var es := Entries(m);
    vs := seq(|es|, i requires 0 <= i < |es| => es[i].1);
    forall v | v in m.Values ensures v in vs {
      var k :| k in m && m[k] == v;
      assert (k, m[k]) in es;
      var i :| 0 <= i < |es| && es[i] == (k, m[k]);
      assert vs[i] == v;
    }
    forall v | v in vs ensures v in m.Values {
      var i :| 0 <= i < |vs| && vs[i] == v;
      assert es[i].0 in m;
    }
  }

  lemma {:induction false} NoDupSize<T>(s: seq<T>)
    requires NoDup(s)
    ensures |Elems(s)| == |s|
  {
    if s != [] {
      var init, last := s[..|s| - 1], s[|s| - 1];
      NoDupSize(init);
      assert s == init + [last];
      ElemsAppend(init, [last]);
      assert last !in Elems(init) && Elems([last]) == {last};
    }
  }
}
