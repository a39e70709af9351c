/**
 * Argument marshalling for the generated D-Bus method tables of the
 * stratisd client: optional values encoded as (present, value) pairs,
 * per-method transformers built from (name, input transform, signature)
 * triples, and the keyword check and reordering done before a call.
 *
 * The transforms of the foreign `into_dbus_python.xformers` are opaque:
 * the model receives that function as a parameter.
 */
module DbusImplementation {
  import opened Seqs

  /** A Python object handed to, or produced for, a D-Bus method. */
  datatype Value =
    | NoneValue
    | BoolValue(b: bool)
    | IntValue(i: int)
    | StrValue(s: string)
    | TupleValue(items: seq<Value>)
    | ListValue(items: seq<Value>)

  /** The two `ValueError`s raised on this path. */
  datatype Error = WrongNumberOfObjects | BadKeys

  datatype Result<T> = Success(value: T) | Failure(error: Error)

  /** An input transform, such as `_IDENTITY`. */
  type Transform = Value -> Value

  /** An output transform of the foreign library: a D-Bus value and its variant level. */
  type OutTransform = Value -> (Value, int)

  /** `into_dbus_python.xformers`: a signature string to a list of (transform, signature) pairs. */
  type Foreign = string -> seq<(OutTransform, string)>

  /** One argument description: its keyword name, its input transform, its signature. */
  datatype ArgSpec = ArgSpec(name: string, inxform: Transform, sig: string)

  /** The closure returned by `_info_to_xformer`, with the values it captures. */
  datatype Xformer = Xformer(inxforms: seq<Transform>, outxforms: seq<OutTransform>, expectedLength: nat)

  // ---------------------------------------------------------------------
  // _option_to_tuple

  /** `_IDENTITY`. */
  function Identity(v: Value): (r: Value) { v }

  /** Encodes a Python optional (None or a value) as a (present, value) pair. */
  function OptionToTuple(value: Value, default: Value): (r: Value)
    ensures r.TupleValue? && |r.items| == 2
    ensures r.items[0] == BoolValue(!value.NoneValue?)
    ensures r.items[1] == if value.NoneValue? then default else value
  {
    if value.NoneValue? then TupleValue([BoolValue(false), default]) else TupleValue([BoolValue(true), value])
  }

  /** The decoding a receiver applies to a (present, value) pair. */
  function TupleToOption(t: Value): (r: Value)
  {
    if t.TupleValue? && |t.items| == 2 && t.items[0] == BoolValue(true) then t.items[1] else NoneValue
  }

  /** Decoding recovers the optional whatever the default; falsy values such as 0 and False stay present. */
  lemma OptionRoundTrip(value: Value, default: Value)
    ensures TupleToOption(OptionToTuple(value, default)) == value
    ensures value != NoneValue ==> OptionToTuple(value, default).items[0] == BoolValue(true)
  {
  }

  // ---------------------------------------------------------------------
  // _info_to_xformer

  /** The signature handed to the foreign library: the argument signatures joined in order. */
  function JoinSigs(specs: seq<ArgSpec>): (r: string)
  {
    if specs == [] then "" else specs[0].sig + JoinSigs(specs[1..])
  }

  lemma {:induction false} JoinSigsAppend(a: seq<ArgSpec>, b: seq<ArgSpec>)
    ensures JoinSigs(a + b) == JoinSigs(a) + JoinSigs(b)
  {
    if a == [] {
      assert a + b == b;
    } else {
      assert (a + b)[1..] == a[1..] + b;
      JoinSigsAppend(a[1..], b);
    }
  }

  /** The k-th signature sits between the signatures of the arguments before and after it. */
  lemma JoinSigsAt(specs: seq<ArgSpec>, k: nat)
    requires k < |specs|
    ensures JoinSigs(specs) == JoinSigs(specs[..k]) + specs[k].sig + JoinSigs(specs[k + 1..])
  {
    assert specs == specs[..k] + specs[k..];
    JoinSigsAppend(specs[..k], specs[k..]);
    assert specs[k..][1..] == specs[k + 1..];
  }

  /** The declared names, in declared order. */
  function Names(specs: seq<ArgSpec>): (r: seq<string>)
    ensures |r| == |specs|
    ensures forall k :: 0 <= k < |specs| ==> r[k] == specs[k].name
  {
    seq(|specs|, k requires 0 <= k < |specs| => specs[k].name)
  }

  /** `_info_to_xformer`: captures the input transforms, the first components of the foreign pairs, and the arity. */
  function InfoToXformer(specs: seq<ArgSpec>, xformers: Foreign): (x: Xformer)
    ensures x.expectedLength == |specs|
    ensures |x.inxforms| == |specs|
    ensures forall k :: 0 <= k < |specs| ==> x.inxforms[k] == specs[k].inxform
    ensures |x.outxforms| == |xformers(JoinSigs(specs))|
    ensures forall k :: 0 <= k < |x.outxforms| ==> x.outxforms[k] == xformers(JoinSigs(specs))[k].0
  {
    var outs := xformers(JoinSigs(specs));
    Xformer(
      seq(|specs|, k requires 0 <= k < |specs| => specs[k].inxform),
      seq(|outs|, k requires 0 <= k < |outs| => outs[k].0),
      |specs|)
  }

  function Min(a: nat, b: nat): (r: nat) { if a <= b then a else b }

  /** The list comprehension over `zip(zip(outxforms, inxforms), objects)`, keeping first components. */
  function ZipApply(outs: seq<OutTransform>, ins: seq<Transform>, objects: seq<Value>): (r: seq<Value>)
    ensures |r| == Min(Min(|outs|, |ins|), |objects|)
    ensures forall k :: 0 <= k < |r| ==> r[k] == outs[k](ins[k](objects[k])).0
  {
    if outs == [] || ins == [] || objects == [] then []
    else [outs[0](ins[0](objects[0])).0] + ZipApply(outs[1..], ins[1..], objects[1..])
  }

  /** The inner `xformer`: rejects a wrong argument count, otherwise transforms element-wise. */
  function Apply(x: Xformer, objects: seq<Value>): (r: Result<seq<Value>>)
    ensures r.Failure? <==> |objects| != x.expectedLength
    ensures r.Failure? ==> r.error == WrongNumberOfObjects
  {
    if |objects| != x.expectedLength then Failure(WrongNumberOfObjects)
    else Success(ZipApply(x.outxforms, x.inxforms, objects))
  }

  /**
   * The transformer built for `specs` fails exactly on a wrong count; given at
   * least one foreign transform per argument, it yields one element per argument,
   * the first component of the output transform applied to the input transform.
   */
  lemma XformerSpec(specs: seq<ArgSpec>, xformers: Foreign, objects: seq<Value>)
    requires |xformers(JoinSigs(specs))| >= |specs|
    ensures var r := Apply(InfoToXformer(specs, xformers), objects);
      && (r.Failure? <==> |objects| != |specs|)
      && (r.Success? ==>
            && |r.value| == |specs|
            && forall k :: 0 <= k < |specs| ==>
                 r.value[k] == xformers(JoinSigs(specs))[k].0(specs[k].inxform(objects[k])).0)
  {
  }

  /** Without that assumption `zip` truncates: fewer foreign transforms mean a shorter result. */
  lemma XformerTruncates(specs: seq<ArgSpec>, xformers: Foreign, objects: seq<Value>)
    requires |xformers(JoinSigs(specs))| < |specs| == |objects|
    ensures var r := Apply(InfoToXformer(specs, xformers), objects);
      r.Success? && |r.value| == |xformers(JoinSigs(specs))| < |specs|
  {
  }

  // ---------------------------------------------------------------------
  // _xformers

  /** `_xformers`: each method to its declared names and its transformer. */
  function Xformers<K>(keyToSig: map<K, seq<ArgSpec>>, xformers: Foreign): (r: map<K, (seq<string>, Xformer)>)
    ensures r.Keys == keyToSig.Keys
    ensures forall m :: m in r ==> |r[m].0| == |keyToSig[m]|
    ensures forall m, k :: m in r && 0 <= k < |keyToSig[m]| ==> r[m].0[k] == keyToSig[m][k].name
    ensures forall m :: m in r ==> r[m].1 == InfoToXformer(keyToSig[m], xformers)
  {
    map m | m in keyToSig :: (Names(keyToSig[m]), InfoToXformer(keyToSig[m], xformers))
  }

  // ---------------------------------------------------------------------
  // The keyword check and reordering in dbus_func

  /** `names.index(x)`: the position of the first occurrence. */
  function FirstIndex(s: seq<string>, x: string): (i: nat)
    requires x in s
    ensures i < |s| && s[i] == x
    ensures forall j :: 0 <= j < i ==> s[j] != x
  {
    if s[0] == x then 0 else 1 + FirstIndex(s[1..], x)
  }

  lemma FirstIndexPrefix(s: seq<string>, n: nat, x: string)
    requires n <= |s| && x in s[..n]
    ensures FirstIndex(s, x) == FirstIndex(s[..n], x)
  {
    var i, j := FirstIndex(s, x), FirstIndex(s[..n], x);
    assert s[j] == x;
    assert i <= j;
  }

  /** The order of `o` is increasing in the first index in `s`, which is what sorting by `s.index` yields. */
  predicate SortedByFirstIndex(s: seq<string>, o: seq<string>)
  {
    && (forall i :: 0 <= i < |o| ==> o[i] in s)
    && (forall i, j :: 0 <= i < j < |o| ==> o[i] in s && o[j] in s && FirstIndex(s, o[i]) < FirstIndex(s, o[j]))
  }

  /** The distinct names in order of first occurrence. */
  function Dedup(s: seq<string>): (r: seq<string>)
    ensures Elems(r) == Elems(s)
    ensures Distinct(r)
    ensures SortedByFirstIndex(s, r)
  {
    if s == [] then []
    else
      var p := Dedup(s[..|s| - 1]);
      if s[|s| - 1] in p then
        DedupSeen(s, p);
        p
      else
        DedupNew(s, p);
        p + [s[|s| - 1]]
  }

  /** Names of the prefix keep their first index when one more name is appended. */
  lemma PrefixFirstIndexes(s: seq<string>, p: seq<string>)
    requires s != [] && Elems(p) == Elems(s[..|s| - 1])
    ensures forall i :: 0 <= i < |p| ==>
      p[i] in s[..|s| - 1] && p[i] in s && FirstIndex(s, p[i]) == FirstIndex(s[..|s| - 1], p[i])
  {
    forall i | 0 <= i < |p|
      ensures p[i] in s[..|s| - 1] && p[i] in s && FirstIndex(s, p[i]) == FirstIndex(s[..|s| - 1], p[i])
    {
      assert p[i] in Elems(s[..|s| - 1]);
      FirstIndexPrefix(s, |s| - 1, p[i]);
    }
  }

  /** The step of `Dedup` when the last name was seen before: nothing is added. */
  lemma DedupSeen(s: seq<string>, p: seq<string>)
    requires s != [] && s[|s| - 1] in p
    requires Elems(p) == Elems(s[..|s| - 1]) && SortedByFirstIndex(s[..|s| - 1], p)
    ensures Elems(p) == Elems(s) && SortedByFirstIndex(s, p)
  {
    var t, x := s[..|s| - 1], s[|s| - 1];
    assert Elems(s) == Elems(t) + {x} by {
      assert s == t + [x];
    }
    PrefixFirstIndexes(s, p);
  }

  /** The step of `Dedup` for a name not seen before: it goes last. */
  lemma DedupNew(s: seq<string>, p: seq<string>)
    requires s != [] && s[|s| - 1] !in p
    requires Elems(p) == Elems(s[..|s| - 1]) && Distinct(p) && SortedByFirstIndex(s[..|s| - 1], p)
    ensures var r := p + [s[|s| - 1]];
      Elems(r) == Elems(s) && Distinct(r) && SortedByFirstIndex(s, r)
  {
    var t, x := s[..|s| - 1], s[|s| - 1];
    var r := p + [x];
    assert Elems(s) == Elems(t) + {x} by {
      assert s == t + [x];
    }
    assert Elems(r) == Elems(p) + {x};
    assert x !in t by {
      assert x !in Elems(t);
    }
    assert FirstIndex(s, x) == |s| - 1;
    PrefixFirstIndexes(s, p);
    forall i, j | 0 <= i < j < |r| ensures r[i] in s && r[j] in s && FirstIndex(s, r[i]) < FirstIndex(s, r[j]) {
      if j < |p| {
        assert r[i] == p[i] && r[j] == p[j];
      } else {
        assert r[i] == p[i] && FirstIndex(t, p[i]) < |t|;
      }
    }
  }

  lemma {:induction false} DedupOfDistinct(s: seq<string>)
    requires Distinct(s)
    ensures Dedup(s) == s
  {
    if s != [] {
      var t, x := s[..|s| - 1], s[|s| - 1];
      assert s == t + [x];
      assert Distinct(t);
      assert x !in t by {
        forall k | 0 <= k < |t| ensures t[k] != x {
          assert s[k] == t[k];
        }
      }
      DedupOfDistinct(t);
    }
  }

  /** The head of a list sorted by first index has the least first index. */
  lemma SortedHeadLeast(s: seq<string>, o: seq<string>, x: string)
    requires SortedByFirstIndex(s, o) && x in o
    ensures o[0] in s && x in s && FirstIndex(s, o[0]) <= FirstIndex(s, x)
  {
    var k :| 0 <= k < |o| && o[k] == x;
    if k > 0 {
      assert FirstIndex(s, o[0]) < FirstIndex(s, o[k]);
    }
  }

  /** Sorting a key set by `s.index` has exactly one outcome. */
  lemma {:induction false} SortedUnique(s: seq<string>, a: seq<string>, b: seq<string>)
    requires Elems(a) == Elems(b)
    requires SortedByFirstIndex(s, a) && SortedByFirstIndex(s, b)
    ensures a == b
  {
    if a != [] || b != [] {
      assert a != [] && b != [] by {
        if a != [] { assert a[0] in Elems(b); }
        if b != [] { assert b[0] in Elems(a); }
      }
      assert a[0] in Elems(b);
      assert b[0] in Elems(a);
      SortedHeadLeast(s, a, b[0]);
      SortedHeadLeast(s, b, a[0]);
      assert s[FirstIndex(s, a[0])] == a[0] && s[FirstIndex(s, b[0])] == b[0];
      assert a[0] == b[0];
      forall x | x in Elems(a[1..]) ensures x in Elems(b[1..]) {
        var k :| 1 <= k < |a| && a[k] == x;
        assert FirstIndex(s, a[0]) < FirstIndex(s, a[k]);
        assert x in Elems(b);
      }
      forall x | x in Elems(b[1..]) ensures x in Elems(a[1..]) {
        var k :| 1 <= k < |b| && b[k] == x;
        assert FirstIndex(s, b[0]) < FirstIndex(s, b[k]);
        assert x in Elems(a);
      }
      SortedUnique(s, a[1..], b[1..]);
    }
  }

  /** The list comprehension over `sorted(kwargs.items(), key=names.index)`, after the key check. */
  function Reorder(names: seq<string>, kwargs: map<string, Value>): (r: Result<seq<Value>>)
    ensures r.Failure? <==> Elems(names) != kwargs.Keys
    ensures r.Failure? ==> r.error == BadKeys
    ensures r.Success? ==> |r.value| == |kwargs|
  {
    if Elems(names) != kwargs.Keys then Failure(BadKeys)
    else
      var order := Dedup(names);
      DistinctCard(order);
      Success(seq(|order|, k requires 0 <= k < |order| => kwargs[order[k]]))
  }

  /**
   * On matching keys the arguments are the values listed in the unique order
   * that sorts the keys by their first position in `names`.
   */
  lemma ReorderSorted(names: seq<string>, kwargs: map<string, Value>, order: seq<string>)
    requires Elems(names) == kwargs.Keys
    requires Elems(order) == kwargs.Keys && SortedByFirstIndex(names, order)
    ensures var r := Reorder(names, kwargs);
      r.Success? && |r.value| == |order| && forall k :: 0 <= k < |order| ==> r.value[k] == kwargs[order[k]]
  {
    SortedUnique(names, order, Dedup(names));
  }

  /** With distinct names: `args[k] == kwargs[names[k]]`. */
  lemma ReorderDistinct(names: seq<string>, kwargs: map<string, Value>)
    requires Distinct(names) && Elems(names) == kwargs.Keys
    ensures var r := Reorder(names, kwargs);
      && r.Success?
      && |r.value| == |names|
      && (forall k :: 0 <= k < |names| ==> r.value[k] == kwargs[names[k]])
  {
    DedupOfDistinct(names);
  }

  /** The (keyword, argument) pairs of a call. */
  function Pairs(names: seq<string>, args: seq<Value>): (r: set<(string, Value)>)
    requires |args| == |names|
  {
    set k | 0 <= k < |names| :: (names[k], args[k])
  }

  /** With distinct names the (name, argument) pairs are exactly the keyword items: a permutation of them. */
  lemma ReorderPermutes(names: seq<string>, kwargs: map<string, Value>)
    requires Distinct(names) && Elems(names) == kwargs.Keys
    ensures var r := Reorder(names, kwargs);
      r.Success? && |r.value| == |names| && Pairs(names, r.value) == kwargs.Items
  {
    ReorderDistinct(names, kwargs);
    PairsAreItems(names, Reorder(names, kwargs).value, kwargs);
  }

  lemma PairsAreItems(names: seq<string>, args: seq<Value>, kwargs: map<string, Value>)
    requires Elems(names) == kwargs.Keys && |args| == |names|
    requires forall k :: 0 <= k < |names| ==> args[k] == kwargs[names[k]]
    ensures Pairs(names, args) == kwargs.Items
  {
    var pairs := Pairs(names, args);
    forall item | item in kwargs.Items ensures item in pairs {
      assert item.0 in Elems(names);
      var k :| 0 <= k < |names| && names[k] == item.0;
      assert (names[k], args[k]) in pairs;
    }
    forall item | item in pairs ensures item in kwargs.Items {
      var k :| 0 <= k < |names| && item == (names[k], args[k]);
      assert names[k] in Elems(names);
    }
  }

  /** What `dbus_func` hands to the proxy: the reordered keywords, transformed. */
  function MethodArgs(names: seq<string>, xf: Xformer, kwargs: map<string, Value>): (r: Result<seq<Value>>)
    ensures Elems(names) != kwargs.Keys ==> r == Failure(BadKeys)
  {
    match Reorder(names, kwargs)
    case Failure(e) => Failure(e)
    case Success(args) => Apply(xf, args)
  }

  /**
   * The argument path of a generated method: with distinct declared names, the
   * call succeeds exactly when the keywords are those names, and argument k is
   * the k-th output transform applied to the k-th input transform of `kwargs[names[k]]`.
   */
  lemma MethodArgsSpec(specs: seq<ArgSpec>, xformers: Foreign, kwargs: map<string, Value>)
    requires Distinct(Names(specs))
    requires |xformers(JoinSigs(specs))| >= |specs|
    ensures var r := MethodArgs(Names(specs), InfoToXformer(specs, xformers), kwargs);
      && (r.Success? <==> kwargs.Keys == Elems(Names(specs)))
      && (r.Success? ==>
            && |r.value| == |specs|
            && forall k :: 0 <= k < |specs| ==>
                 r.value[k] == xformers(JoinSigs(specs))[k].0(specs[k].inxform(kwargs[specs[k].name])).0)
  {
    var names := Names(specs);
    if kwargs.Keys == Elems(names) {
      ReorderDistinct(names, kwargs);
      XformerSpec(specs, xformers, Reorder(names, kwargs).value);
    }
  }

  // ---------------------------------------------------------------------
  // The Manager interface's input table

  /** The keyword names of `CreatePool`. */
  const NameArg: string := "name"
  const RedundancyArg: string := "redundancy"
  const ForceArg: string := "force"
  const DevicesArg: string := "devices"

  /** The `CreatePool` argument table. */
  function CreatePoolSpecs(): (specs: seq<ArgSpec>)
    ensures |specs| == 4
    ensures specs[0].name == NameArg && specs[1].name == RedundancyArg
    ensures specs[2].name == ForceArg && specs[3].name == DevicesArg
    ensures JoinSigs(specs) == "s(bq)bas"
    ensures forall v :: specs[1].inxform(v) == OptionToTuple(v, IntValue(0))
    ensures forall v :: specs[0].inxform(v) == v
    ensures forall v :: specs[2].inxform(v) == v
    ensures forall v :: specs[3].inxform(v) == v
  {
    var specs := [
      ArgSpec(NameArg, Identity, "s"),
      ArgSpec(RedundancyArg, v => OptionToTuple(v, IntValue(0)), "(bq)"),
      ArgSpec(ForceArg, Identity, "b"),
      ArgSpec(DevicesArg, Identity, "as")];
    assert JoinSigs(specs[3..]) == "as" by {
      assert specs[3..][1..] == [];
    }
    assert specs[2..][1..] == specs[3..] && specs[1..][1..] == specs[2..];
    assert JoinSigs(specs[1..]) == "(bq)" + JoinSigs(specs[2..]);
    specs
  }

  /** `ManagerSpec.INPUT_SIGS`, keyed by method name. */
  function ManagerInputSigs(): (m: map<string, seq<ArgSpec>>)
    ensures m.Keys == {"ConfigureSimulator", "CreatePool", "DestroyPool"}
    ensures m["CreatePool"] == CreatePoolSpecs()
    ensures |m["ConfigureSimulator"]| == 1 && m["ConfigureSimulator"][0].name == "denominator"
    ensures m["ConfigureSimulator"][0].sig == "u" && forall v :: m["ConfigureSimulator"][0].inxform(v) == v
    ensures |m["DestroyPool"]| == 1 && m["DestroyPool"][0].name == "pool"
    ensures m["DestroyPool"][0].sig == "o" && forall v :: m["DestroyPool"][0].inxform(v) == v
  {
    map[
      "ConfigureSimulator" := [ArgSpec("denominator", Identity, "u")],
      "CreatePool" := CreatePoolSpecs(),
      "DestroyPool" := [ArgSpec("pool", Identity, "o")]]
  }

  /** `ManagerSpec.XFORMERS`. */
  function ManagerXformers(xformers: Foreign): (r: map<string, (seq<string>, Xformer)>)
    ensures r.Keys == {"ConfigureSimulator", "CreatePool", "DestroyPool"}
    ensures r["CreatePool"] == (Names(CreatePoolSpecs()), InfoToXformer(CreatePoolSpecs(), xformers))
  {
    var r := Xformers(ManagerInputSigs(), xformers);
    assert r["CreatePool"].0 == Names(CreatePoolSpecs());
    r
  }

  lemma CreatePoolNames()
    ensures Distinct(Names(CreatePoolSpecs()))
    ensures Elems(Names(CreatePoolSpecs())) == {NameArg, RedundancyArg, ForceArg, DevicesArg}
  {
    var names := Names(CreatePoolSpecs());
    assert names[0] in Elems(names) && names[1] in Elems(names);
    assert names[2] in Elems(names) && names[3] in Elems(names);
  }
}
