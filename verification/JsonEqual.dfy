/**
 `json_equal` (libjansson/jansson-2.7/src/value.c:955-983) is an equivalence of values, and two values are
 equal exactly if they have the same sorted dump.
 */
module JsonEqual {

  import opened JsonUtf8
  import opened JsonString
  import opened JsonValue
  import opened JsonParser
  import opened JsonRoundTrip
  import opened JsonTheorems
  import opened JsonAccepted

  // ---- Keys ----

  ghost function KeySet(fs: seq<Field>): set<seq<Byte>> {
    set f | f in fs :: f.key
  }

  lemma {:induction false} KeySetSize(fs: seq<Field>)
    requires DistinctKeys(fs)
    ensures |KeySet(fs)| == |fs|
  {
    if fs != [] {
      KeySetSize(fs[1..]);
      assert KeySet(fs) == {fs[0].key} + KeySet(fs[1..]) by {
        assert fs == [fs[0]] + fs[1..];
      }
      assert fs[0].key !in KeySet(fs[1..]);
    }
  }

  /** Every field of the one object has one with the same key and an equal value in the other. */
  lemma EqualFields(fs: seq<Field>, gs: seq<Field>, f: Field) returns (g: Field)
    requires Equal(Obj(fs), Obj(gs)) && f in fs
    ensures g in gs && g.key == f.key && Equal(f.value, g.value)
  {
    var i :| 0 <= i < |fs| && fs[i] == f;
    assert HasEqual(fs[i].key, fs[i].value, gs);
    var j :| 0 <= j < |gs| && gs[j].key == f.key && Equal(f.value, gs[j].value);
    g := gs[j];
  }

  lemma SameKeys(fs: seq<Field>, gs: seq<Field>)
    requires Equal(Obj(fs), Obj(gs)) && DistinctKeys(fs) && DistinctKeys(gs)
    ensures KeySet(fs) == KeySet(gs) && |fs| == |gs|
  {
    forall key | key in KeySet(fs)
      ensures key in KeySet(gs)
    {
      var f :| f in fs && f.key == key;
      var g := EqualFields(fs, gs, f);
    }
    KeySetSize(fs);
    KeySetSize(gs);
    SubsetOfSameSize(KeySet(fs), KeySet(gs));
  }

  lemma SubsetOfSameSize<T>(a: set<T>, b: set<T>)
    requires a <= b && |a| == |b|
    ensures a == b
  {
    assert b == a + (b - a) && |b| == |a| + |b - a|;
  }

  lemma SameKeySameValue(gs: seq<Field>, g: Field, h: Field)
    requires DistinctKeys(gs) && g in gs && h in gs && g.key == h.key
    ensures g == h
  {
  }

  // ---- An equivalence ----

  lemma {:induction false} EqualSymmetric(v: Json, w: Json)
    requires Equal(v, w) && KeysDistinct(v) && KeysDistinct(w)
    ensures Equal(w, v)
    decreases v
  {
    if v.Arr? && w.Arr? {
      forall i | 0 <= i < |w.elems|
        ensures Equal(w.elems[i], v.elems[i])
      {
        assert v.elems[i] in v.elems && w.elems[i] in w.elems;
        EqualSymmetric(v.elems[i], w.elems[i]);
      }
    } else if v.Obj? && w.Obj? {
      var fs, gs := v.fields, w.fields;
      SameKeys(fs, gs);
      forall j | 0 <= j < |gs|
        ensures HasEqual(gs[j].key, gs[j].value, fs)
      {
        assert gs[j] in gs && gs[j].key in KeySet(fs);
        var f :| f in fs && f.key == gs[j].key;
        var g := EqualFields(fs, gs, f);
        SameKeySameValue(gs, g, gs[j]);
        EqualSymmetric(f.value, g.value);
        var i :| 0 <= i < |fs| && fs[i] == f;
      }
    }
  }

  lemma {:induction false} EqualTransitive(u: Json, v: Json, w: Json)
    requires Equal(u, v) && Equal(v, w)
    ensures Equal(u, w)
    decreases u
  {
    if u.Arr? && v.Arr? && w.Arr? {
      forall i | 0 <= i < |u.elems|
        ensures Equal(u.elems[i], w.elems[i])
      {
        EqualTransitive(u.elems[i], v.elems[i], w.elems[i]);
      }
    } else if u.Obj? && v.Obj? && w.Obj? {
      var fs := u.fields;
      forall i | 0 <= i < |fs|
        ensures HasEqual(fs[i].key, fs[i].value, w.fields)
      {
        var g := EqualFields(fs, v.fields, fs[i]);
        var h := EqualFields(v.fields, w.fields, g);
        EqualTransitive(fs[i].value, g.value, h.value);
        var j :| 0 <= j < |w.fields| && w.fields[j] == h;
      }
    }
  }

  // ---- Equal values have the same sorted dump ----

  ghost predicate Ascending(os: seq<Field>) {
    forall i, j | 0 <= i < j < |os| :: KeyBelow(os[i].key, os[j].key)
  }

  lemma SortedAscends(fs: seq<Field>, fl: DumpFlags)
    requires DistinctKeys(fs) && fl.sortKeys
    ensures Ascending(Ordered(fs, fl)) && KeySet(Ordered(fs, fl)) == KeySet(fs) && |Ordered(fs, fl)| == |fs|
    ensures forall f :: f in Ordered(fs, fl) <==> f in fs
  {
    OrderedMembers(fs, fl);
    OrderedKeys(fs, fl);
    OrderedAsAsked(fs, fl);
    var os := Ordered(fs, fl);
    forall i, j | 0 <= i < j < |os|
      ensures KeyBelow(os[i].key, os[j].key)
    {
      KeyBelowIff(os[i].key, os[j].key);
    }
  }

  lemma KeyAt(os: seq<Field>, key: seq<Byte>) returns (i: nat)
    requires key in KeySet(os)
    ensures i < |os| && os[i].key == key
  {
    var f :| f in os && f.key == key;
    i :| 0 <= i < |os| && os[i] == f;
  }

  lemma FirstKey(os: seq<Field>, ps: seq<Field>)
    requires Ascending(os) && Ascending(ps) && KeySet(os) == KeySet(ps) && os != [] && ps != []
    ensures os[0].key == ps[0].key
  {
    assert os[0].key in KeySet(os) && ps[0].key in KeySet(ps);
    var j := KeyAt(ps, os[0].key);
    var i := KeyAt(os, ps[0].key);
    KeyOrder(os[0].key, ps[0].key, []);
  }

  lemma TailKeys(os: seq<Field>)
    requires Ascending(os) && os != []
    ensures Ascending(os[1..]) && KeySet(os[1..]) == KeySet(os) - {os[0].key}
  {
    forall f | f in os[1..]
      ensures f.key != os[0].key
    {
      var i :| 0 <= i < |os[1..]| && os[1..][i] == f;
      assert KeyBelow(os[0].key, os[i + 1].key);
      KeyOrder(os[0].key, os[0].key, []);
    }
    assert os == [os[0]] + os[1..];
  }

  /** Ascending keys are determined by their set. */
  lemma {:induction false} AscendingUnique(os: seq<Field>, ps: seq<Field>)
    requires Ascending(os) && Ascending(ps) && KeySet(os) == KeySet(ps) && |os| == |ps|
    ensures forall i | 0 <= i < |os| :: os[i].key == ps[i].key
  {
    if os != [] {
      FirstKey(os, ps);
      TailKeys(os);
      TailKeys(ps);
      AscendingUnique(os[1..], ps[1..]);
      forall i | 0 <= i < |os|
        ensures os[i].key == ps[i].key
      {
        if i > 0 {
          assert os[i] == os[1..][i - 1] && ps[i] == ps[1..][i - 1];
        }
      }
    }
  }

  lemma {:induction false} SameElems(es: seq<Json>, ds: seq<Json>, fl: DumpFlags, depth: nat)
    requires |es| == |ds| && forall i | 0 <= i < |es| :: Dump(es[i], fl, depth + 1) == Dump(ds[i], fl, depth + 1)
    ensures DumpElems(es, fl, depth) == DumpElems(ds, fl, depth)
  {
    if es != [] {
      assert forall i | 0 <= i < |es| - 1 :: es[1..][i] == es[i + 1] && ds[1..][i] == ds[i + 1];
      SameElems(es[1..], ds[1..], fl, depth);
      hide Dump, Indent;
    }
  }

  lemma {:induction false} SameFields(v: Json, os: seq<Field>, w: Json, ps: seq<Field>, fl: DumpFlags, depth: nat)
    requires (forall f | f in os :: f.value < v) && (forall f | f in ps :: f.value < w) && |os| == |ps|
    requires forall i | 0 <= i < |os| ::
               os[i].key == ps[i].key && Dump(os[i].value, fl, depth + 1) == Dump(ps[i].value, fl, depth + 1)
    ensures DumpFields(v, os, fl, depth) == DumpFields(w, ps, fl, depth)
    decreases |os|
  {
    hide Dump, Indent, DumpString, Separator;
    if os != [] {
      assert forall i | 0 <= i < |os| - 1 :: os[1..][i] == os[i + 1] && ps[1..][i] == ps[i + 1];
      SameFields(v, os[1..], w, ps[1..], fl, depth);
    }
  }

  lemma SameObjectDump(fs: seq<Field>, gs: seq<Field>, fl: DumpFlags, depth: nat)
    requires fs != [] && gs != []
    requires forall f | f in Ordered(fs, fl) :: f.value < Obj(fs)
    requires forall g | g in Ordered(gs, fl) :: g.value < Obj(gs)
    requires DumpFields(Obj(fs), Ordered(fs, fl), fl, depth) == DumpFields(Obj(gs), Ordered(gs, fl), fl, depth)
    ensures Dump(Obj(fs), fl, depth) == Dump(Obj(gs), fl, depth)
  {
    hide DumpFields, Indent, Ordered;
  }

  /** Values that `json_equal` takes for equal are dumped to the same text when the keys are sorted. */
  lemma {:induction false} EqualSameDump(v: Json, w: Json, fl: DumpFlags, depth: nat)
    requires Equal(v, w) && KeysDistinct(v) && KeysDistinct(w) && fl.sortKeys
    ensures Dump(v, fl, depth) == Dump(w, fl, depth)
    decreases v
  {
    if v.Arr? && w.Arr? {
      var es, ds := v.elems, w.elems;
      forall i | 0 <= i < |es|
        ensures Dump(es[i], fl, depth + 1) == Dump(ds[i], fl, depth + 1)
      {
        assert es[i] in es && ds[i] in ds;
        EqualSameDump(es[i], ds[i], fl, depth + 1);
      }
      hide Equal, KeysDistinct;
      SameElems(es, ds, fl, depth);
    } else if v.Obj? && w.Obj? && v.fields != [] {
      EqualObjects(v, w, v.fields, w.fields, fl, depth);
    }
  }

  lemma {:induction false} EqualObjects(v: Json, w: Json, fs: seq<Field>, gs: seq<Field>, fl: DumpFlags, depth: nat)
    requires v == Obj(fs) && w == Obj(gs) && fs != []
    requires Equal(v, w) && KeysDistinct(v) && KeysDistinct(w) && fl.sortKeys
    ensures Dump(v, fl, depth) == Dump(w, fl, depth)
    decreases v, 0
  {
    var os, ps := Ordered(fs, fl), Ordered(gs, fl);
    OrderedMembers(fs, fl);
    OrderedMembers(gs, fl);
    SameKeys(fs, gs);
    SortedAscends(fs, fl);
    SortedAscends(gs, fl);
    AscendingUnique(os, ps);
    hide Dump, Ordered, Equal, KeySet, Ascending;
    forall i | 0 <= i < |os|
      ensures Dump(os[i].value, fl, depth + 1) == Dump(ps[i].value, fl, depth + 1)
    {
      assert os[i] in fs && ps[i] in gs;
      var g := EqualFields(fs, gs, os[i]);
      SameKeySameValue(gs, g, ps[i]);
      EqualSameDump(os[i].value, g.value, fl, depth + 1);
    }
    hide KeysDistinct;
    SameFields(v, os, w, ps, fl, depth);
    SameObjectDump(fs, gs, fl, depth);
  }

  // ---- And only they ----

  lemma {:induction false} ProperDistinct(v: Json)
    requires Proper(v)
    ensures KeysDistinct(v)
  {
    match v
    case Arr(es) =>
      forall e | e in es
        ensures KeysDistinct(e)
      {
        ProperDistinct(e);
      }
    case Obj(fs) =>
      forall f | f in fs
        ensures KeysDistinct(f.value)
      {
        ProperDistinct(f.value);
      }
    case _ =>
  }

  /** Two values without reals are equal exactly if their sorted dumps are the same; values with the same dump
      under any flags are equal. */
  lemma EqualIffSameDump(v: Json, w: Json, fl: DumpFlags)
    requires Proper(v) && Proper(w)
    ensures Dump(v, fl, 0) == Dump(w, fl, 0) ==> Equal(v, w)
    ensures fl.sortKeys ==> (Equal(v, w) <==> Dump(v, fl, 0) == Dump(w, fl, 0))
  {
    hide Dump, Equal, Proper, KeysDistinct;
    ProperDistinct(v);
    ProperDistinct(w);
    if Dump(v, fl, 0) == Dump(w, fl, 0) {
      SameDumpEqual(v, w, fl);
    }
    if fl.sortKeys && Equal(v, w) {
      EqualSameDump(v, w, fl, 0);
    }
  }

  lemma SameDumpEqual(v: Json, w: Json, fl: DumpFlags)
    requires Proper(v) && Proper(w) && Dump(v, fl, 0) == Dump(w, fl, 0)
    ensures Equal(v, w)
  {
    var pf := ParseFlags(false, false, true, true);
    assert Loads(v, pf) && Loads(w, pf);
    hide Dump, Normal, Proper, Equal, LoadBuffer, KeysDistinct, Accepted, Loads;
    JsonRoundTrips(v, fl, pf, []);
    JsonRoundTrips(w, fl, pf, []);
    LoadedIsAccepted(Dump(w, fl, 0), pf);
    AcceptedKeys(Normal(w, fl), true);
    ProperDistinct(w);
    EqualSymmetric(w, Normal(w, fl));
    EqualTransitive(v, Normal(v, fl), w);
  }
}
