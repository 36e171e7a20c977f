/**
 The fields of an object that is read: `json_object_set_new_nocheck` in a loop
 (libjansson/jansson-2.7/src/load.c:679-756) comes to what the grammar says of repeated keys.
 */
module JsonFields {

  import opened JsonUtf8
  import opened JsonValue
  import opened JsonParser
  import opened JsonGrammar

  lemma FirstExists(keys: seq<seq<Byte>>, key: seq<Byte>) returns (i: nat)
    requires key in keys
    ensures FirstAt(keys, i) && keys[i] == key
  {
    i := 0;
    while keys[i] != key
      invariant i < |keys| && forall j | 0 <= j < i :: keys[j] != key
      decreases |keys| - i
    {
      i := i + 1;
    }
  }

  lemma FirstAppend(keys: seq<seq<Byte>>, key: seq<Byte>, i: nat)
    ensures FirstAt(keys + [key], i) <==> if i < |keys| then FirstAt(keys, i) else i == |keys| && key !in keys
  {
    var all := keys + [key];
    if i < |keys| {
      assert forall j | 0 <= j <= i :: all[j] == keys[j];
    } else if i == |keys| {
      assert all[i] == key && forall j | 0 <= j < i :: all[j] == keys[j];
    }
  }

  lemma LastAppend(keys: seq<seq<Byte>>, key: seq<Byte>, i: nat)
    ensures LastAt(keys + [key], i) <==> i == |keys| || (LastAt(keys, i) && keys[i] != key)
  {
    var all := keys + [key];
    if i < |keys| {
      assert all[|keys|] == key && forall j | 0 <= j < |keys| :: all[j] == keys[j];
    }
  }

  /** A key has a field exactly if it came before. */
  lemma FoundIff(fs: seq<Field>, keys: seq<seq<Byte>>, values: seq<Json>, key: seq<Byte>)
    requires FieldsMean(fs, keys, values)
    ensures FindField(fs, key).Some? <==> key in keys
  {
    if key in keys {
      var i := FirstExists(keys, key);
      assert exists f :: f in fs && f.serial == i;
    }
  }

  lemma SameSerial(fs: seq<Field>, i: nat, j: nat)
    requires (forall a, b | 0 <= a < b < |fs| :: fs[a].serial < fs[b].serial) && i < |fs| && j < |fs|
    ensures fs[i].serial == fs[j].serial ==> i == j
  {
  }

  lemma OneFieldForAKey(fs: seq<Field>, keys: seq<seq<Byte>>, values: seq<Json>, i: nat, j: nat)
    requires FieldsMean(fs, keys, values) && i < |fs| && j < |fs| && fs[i].key == fs[j].key
    ensures i == j
  {
    assert fs[i] in fs && fs[j] in fs;
    SameSerial(fs, i, j);
  }

  /** One more key: its value is the last one from now on, and a key that came before keeps its place. */
  lemma SetFieldMeans(fs: seq<Field>, keys: seq<seq<Byte>>, values: seq<Json>, key: seq<Byte>, v: Json)
    requires FieldsMean(fs, keys, values)
    ensures FieldsMean(SetField(fs, key, |keys|, v), keys + [key], values + [v])
  {
    FoundIff(fs, keys, values, key);
    match FindField(fs, key)
    case None => NewFieldMeans(fs, keys, values, key, v);
    case Some(at) => OldFieldMeans(fs, keys, values, key, v, at);
  }

  /** The keys and the values, with one more behind them. */
  ghost predicate Extended(keys: seq<seq<Byte>>, values: seq<Json>, key: seq<Byte>, v: Json, ks: seq<seq<Byte>>,
      vs: seq<Json>)
  {
    && |keys| == |values| && |ks| == |vs| == |keys| + 1 && ks[|keys|] == key && vs[|keys|] == v
    && (forall i: nat :: FirstAt(ks, i) <==> if i < |keys| then FirstAt(keys, i) else i == |keys| && key !in keys)
    && (forall i: nat :: LastAt(ks, i) <==> i == |keys| || (LastAt(keys, i) && keys[i] != key))
    && forall i: nat | i < |keys| :: ks[i] == keys[i] && vs[i] == values[i]
  }

  lemma AppendExtends(keys: seq<seq<Byte>>, values: seq<Json>, key: seq<Byte>, v: Json)
    requires |keys| == |values|
    ensures Extended(keys, values, key, v, keys + [key], values + [v])
  {
    forall i: nat
      ensures FirstAt(keys + [key], i) <==> if i < |keys| then FirstAt(keys, i) else i == |keys| && key !in keys
      ensures LastAt(keys + [key], i) <==> i == |keys| || (LastAt(keys, i) && keys[i] != key)
    {
      FirstAppend(keys, key, i);
      LastAppend(keys, key, i);
    }
  }

  lemma NewFieldMeans(fs: seq<Field>, keys: seq<seq<Byte>>, values: seq<Json>, key: seq<Byte>, v: Json)
    requires FieldsMean(fs, keys, values) && key !in keys
    ensures FieldsMean(fs + [Field(key, |keys|, v)], keys + [key], values + [v])
  {
    var all, ks, vs := fs + [Field(key, |keys|, v)], keys + [key], values + [v];
    AppendExtends(keys, values, key, v);
    hide FirstAt, LastAt;
    forall i: nat | FirstAt(ks, i)
      ensures exists f :: f in all && f.serial == i
    {
      if i == |keys| {
        assert all[|fs|] in all && all[|fs|].serial == i;
      } else {
        var f :| f in fs && f.serial == i;
        assert f in all;
      }
    }
    assert forall f | f in fs :: FirstAt(keys, f.serial) && keys[f.serial] == f.key;
  }

  lemma OldFieldMeans(fs: seq<Field>, keys: seq<seq<Byte>>, values: seq<Json>, key: seq<Byte>, v: Json, at: nat)
    requires FieldsMean(fs, keys, values) && at < |fs| && fs[at].key == key && key in keys
    ensures FieldsMean(fs[at := fs[at].(value := v)], keys + [key], values + [v])
  {
    var all, ks, vs := fs[at := fs[at].(value := v)], keys + [key], values + [v];
    AppendExtends(keys, values, key, v);
    hide FirstAt, LastAt;
    OldFirsts(fs, all, keys, ks);
    hide FieldsMean, Extended;
    forall f | f in all
      ensures FirstAt(ks, f.serial) && ks[f.serial] == f.key
      ensures forall i: nat | LastAt(ks, i) && ks[i] == f.key :: f.value == vs[i]
    {
      var j :| 0 <= j < |fs| && all[j] == f;
      OldField(fs, keys, values, key, v, ks, vs, at, j, f);
    }
    OldMeans(fs, all, keys, values, ks, vs);
  }

  lemma OldMeans(fs: seq<Field>, all: seq<Field>, keys: seq<seq<Byte>>, values: seq<Json>, ks: seq<seq<Byte>>,
      vs: seq<Json>)
    requires FieldsMean(fs, keys, values) && |all| == |fs| && |ks| == |vs|
    requires forall j | 0 <= j < |fs| :: all[j].serial == fs[j].serial
    requires forall f | f in all :: FirstAt(ks, f.serial) && ks[f.serial] == f.key
    requires forall f, i: nat | f in all && LastAt(ks, i) && ks[i] == f.key :: f.value == vs[i]
    requires forall i: nat :: FirstAt(ks, i) ==> exists f :: f in all && f.serial == i
    ensures FieldsMean(all, ks, vs)
  {
    hide FirstAt, LastAt;
  }

  lemma OldField(fs: seq<Field>, keys: seq<seq<Byte>>, values: seq<Json>, key: seq<Byte>, v: Json,
      ks: seq<seq<Byte>>, vs: seq<Json>, at: nat, j: nat, f: Field)
    requires FieldsMean(fs, keys, values) && at < |fs| && fs[at].key == key && j < |fs|
    requires Extended(keys, values, key, v, ks, vs)
    requires f == if j == at then fs[j].(value := v) else fs[j]
    ensures FirstAt(ks, f.serial) && ks[f.serial] == f.key
    ensures forall i: nat | LastAt(ks, i) && ks[i] == f.key :: f.value == vs[i]
  {
    assert fs[j] in fs;
    if fs[j].key == key {
      OneFieldForAKey(fs, keys, values, j, at);
    }
    hide FirstAt, LastAt;
  }

  lemma OldFirsts(fs: seq<Field>, all: seq<Field>, keys: seq<seq<Byte>>, ks: seq<seq<Byte>>)
    requires |all| == |fs| && forall j | 0 <= j < |fs| :: all[j].serial == fs[j].serial
    requires forall i: nat :: FirstAt(ks, i) ==> FirstAt(keys, i)
    requires forall i: nat :: FirstAt(keys, i) ==> exists f :: f in fs && f.serial == i
    ensures forall i: nat :: FirstAt(ks, i) ==> exists f :: f in all && f.serial == i
  {
    hide FirstAt;
    forall i: nat | FirstAt(ks, i)
      ensures exists f :: f in all && f.serial == i
    {
      var f :| f in fs && f.serial == i;
      var j :| 0 <= j < |fs| && fs[j] == f;
      assert all[j] in all && all[j].serial == i;
    }
  }

  // ---- The fields are determined ----

  lemma LastExists(keys: seq<seq<Byte>>, key: seq<Byte>) returns (i: nat)
    requires key in keys
    ensures LastAt(keys, i) && keys[i] == key
  {
    i := |keys| - 1;
    while keys[i] != key
      invariant i < |keys| && key in keys[..i + 1] && forall j | i < j < |keys| :: keys[j] != key
      decreases i
    {
      assert keys[..i + 1] == keys[..i] + [keys[i]];
      i := i - 1;
    }
  }

  lemma FieldsWithin(fs: seq<Field>, gs: seq<Field>, keys: seq<seq<Byte>>, values: seq<Json>, f: Field)
    requires FieldsMean(fs, keys, values) && FieldsMean(gs, keys, values) && f in fs
    ensures f in gs
  {
    assert FirstAt(keys, f.serial) && keys[f.serial] == f.key;
    var g :| g in gs && g.serial == f.serial;
    var i := LastExists(keys, f.key);
    assert g.key == f.key && g.value == f.value == values[i];
  }

  lemma FirstIn(fs: seq<Field>)
    ensures fs != [] ==> fs[0] in fs
  {
  }

  lemma {:induction false} SameAscending(fs: seq<Field>, gs: seq<Field>)
    requires forall i, j | 0 <= i < j < |fs| :: fs[i].serial < fs[j].serial
    requires forall i, j | 0 <= i < j < |gs| :: gs[i].serial < gs[j].serial
    requires forall f :: f in fs <==> f in gs
    ensures fs == gs
  {
    FirstIn(fs);
    FirstIn(gs);
    if fs == [] {
    } else {
      assert fs[0] == gs[0];
      forall f
        ensures f in fs[1..] <==> f in gs[1..]
      {
        assert f in fs[1..] <==> f in fs && f != fs[0];
        assert f in gs[1..] <==> f in gs && f != gs[0];
      }
      SameAscending(fs[1..], gs[1..]);
      assert fs == [fs[0]] + fs[1..] && gs == [gs[0]] + gs[1..];
    }
  }

  /** Keys with values in an order come to one object. */
  lemma FieldsUnique(fs: seq<Field>, gs: seq<Field>, keys: seq<seq<Byte>>, values: seq<Json>)
    requires FieldsMean(fs, keys, values) && FieldsMean(gs, keys, values)
    ensures fs == gs
  {
    forall f
      ensures f in fs <==> f in gs
    {
      if f in fs {
        FieldsWithin(fs, gs, keys, values, f);
      }
      if f in gs {
        FieldsWithin(gs, fs, keys, values, f);
      }
    }
    SameAscending(fs, gs);
  }

  /** What was added keeps the keys distinct exactly if it is new. */
  lemma DistinctAppend(keys: seq<seq<Byte>>, key: seq<Byte>)
    ensures Distinct(keys + [key]) <==> Distinct(keys) && key !in keys
  {
    var all := keys + [key];
    assert forall i | 0 <= i < |keys| :: all[i] == keys[i];
    assert all[|keys|] == key;
  }
}
