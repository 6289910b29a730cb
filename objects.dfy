/** The object helpers `extend` and `defaults`: nested `each` calls that
    copy the properties of every argument onto the first one, in place. */
module Objects {
  import opened Js
  import opened Seqs
  import opened Traversal

  /** The entries of `source` whose keys occur in `keys`. */
  function Restrict(source: map<string, Value>, keys: seq<string>): map<string, Value>
  {
    map k | k in source && k in keys :: source[k]
  }

  lemma RestrictAll(source: map<string, Value>, keys: seq<string>)
    requires forall k :: k in source <==> k in keys
    ensures Restrict(source, keys) == source
  {
  }

  // ----- extend -----

  /** The properties after copying every source in turn: a later source
      overwrites what an earlier one or the object itself held. */
  function Extended(props: map<string, Value>, sources: seq<map<string, Value>>): map<string, Value>
  {
    if sources == [] then props
    else Extended(props, sources[..|sources| - 1]) + sources[|sources| - 1]
  }

  /** The inner visitor of `extend`: `obj[key] = val`. */
  function Assign(): (map<string, Value>, Value, string) -> map<string, Value>
  {
    (obj, val, key) => obj[key := val]
  }

  lemma {:induction false} WalkAssigns(source: map<string, Value>, keys: seq<string>, obj: map<string, Value>)
    requires forall i :: 0 <= i < |keys| ==> keys[i] in source
    ensures WalkEntries(source, keys, Assign(), obj) == obj + Restrict(source, keys)
  {
    if keys != [] {
      var init, k := keys[..|keys| - 1], keys[|keys| - 1];
      WalkAssigns(source, init, obj);
      assert keys == init + [k];
      assert Restrict(source, keys) == Restrict(source, init)[k := source[k]];
    }
  }

  /** Copying the object onto itself first changes nothing. */
  lemma {:induction false} ExtendedSelf(props: map<string, Value>, sources: seq<map<string, Value>>)
    ensures Extended(props, [props] + sources) == Extended(props, sources)
  {
    if sources == [] {
      assert [props][..0] == [];
    } else {
      var init := sources[..|sources| - 1];
      assert ([props] + sources)[..|sources|] == [props] + init;
      ExtendedSelf(props, init);
    }
  }

  /** `extend(obj, ...sources)`: iterates over all its arguments, the object
      itself first, and assigns every property of each onto the object. */
  method Extend(obj: JsObject, sources: seq<map<string, Value>>) returns (r: JsObject)
    modifies obj
    ensures r == obj
    ensures obj.props == Extended(old(obj.props), sources)
  {
    var arguments := [obj.props] + sources;
    for i := 0 to |arguments|
      invariant obj.props == Extended(old(obj.props), arguments[..i])
    {
      var props, order := EachEntry(arguments[i], Assign(), obj.props);
      WalkAssigns(arguments[i], order, obj.props);
      RestrictAll(arguments[i], order);
      assert arguments[..i + 1][..i] == arguments[..i];
      obj.props := props;
    }
    assert arguments[..|arguments|] == arguments;
    ExtendedSelf(old(obj.props), sources);
    r := obj;
  }

  lemma {:induction false} ExtendedAppend(props: map<string, Value>, a: seq<map<string, Value>>, b: seq<map<string, Value>>)
    ensures Extended(props, a + b) == Extended(Extended(props, a), b)
  {
    if b == [] {
      assert a + b == a;
    } else {
      var b' := b[..|b| - 1];
      assert (a + b)[..|a + b| - 1] == a + b';
      ExtendedAppend(props, a, b');
    }
  }

  /** A key no source mentions keeps its value and its presence. */
  lemma {:induction false} ExtendedUntouched(props: map<string, Value>, sources: seq<map<string, Value>>, key: string)
    requires forall j :: 0 <= j < |sources| ==> key !in sources[j]
    ensures key in Extended(props, sources) <==> key in props
    ensures key in props ==> Extended(props, sources)[key] == props[key]
  {
    if sources != [] {
      ExtendedUntouched(props, sources[..|sources| - 1], key);
    }
  }

  /** The last source that holds a key decides its value. */
  lemma LaterSourceWins(props: map<string, Value>, sources: seq<map<string, Value>>, j: nat, key: string)
    requires j < |sources| && key in sources[j]
    requires forall j' :: j < j' < |sources| ==> key !in sources[j']
    ensures key in Extended(props, sources) && Extended(props, sources)[key] == sources[j][key]
  {
    var a, b := sources[..j + 1], sources[j + 1..];
    assert sources == a + b;
    ExtendedAppend(props, a, b);
    assert a[..j] == sources[..j];
    ExtendedUntouched(Extended(props, a), b, key);
  }

  // ----- defaults -----

  /** The properties after `defaults` has visited one source: every key whose
      value is missing or `undefined` takes the source's value. */
  function FilledFrom(props: map<string, Value>, source: map<string, Value>): map<string, Value>
  {
    map k | k in props.Keys + source.Keys ::
      if k in source && Get(props, k) == Undefined then source[k] else props[k]
  }

  function Defaulted(props: map<string, Value>, sources: seq<map<string, Value>>): map<string, Value>
  {
    if sources == [] then props
    else FilledFrom(Defaulted(props, sources[..|sources| - 1]), sources[|sources| - 1])
  }

  /** The inner visitor of `defaults`: assigns only when `obj[key] === undefined`. */
  function FillIn(): (map<string, Value>, Value, string) -> map<string, Value>
  {
    (obj, val, key) => if Get(obj, key) == Undefined then obj[key := val] else obj
  }

  /** Filling one more key `k` is the same as filling from a source that also holds `k`. */
  lemma FillStep(obj: map<string, Value>, part: map<string, Value>, k: string, v: Value)
    requires k !in part
    ensures FillIn()(FilledFrom(obj, part), v, k) == FilledFrom(obj, part[k := v])
  {
    var before := FilledFrom(obj, part);
    assert Get(before, k) == Get(obj, k);
    var lhs, rhs := FillIn()(before, v, k), FilledFrom(obj, part[k := v]);
    assert forall key :: key in lhs <==> key in rhs;
    forall key | key in lhs
      ensures lhs[key] == rhs[key]
    {
      if key != k {
        assert lhs[key] == before[key];
      }
    }
  }

  lemma RestrictSnoc(source: map<string, Value>, init: seq<string>, k: string)
    requires k in source
    ensures Restrict(source, init + [k]) == Restrict(source, init)[k := source[k]]
  {
  }

  lemma {:induction false} WalkFills(source: map<string, Value>, keys: seq<string>, obj: map<string, Value>)
    requires forall i :: 0 <= i < |keys| ==> keys[i] in source
    requires Distinct(keys)
    ensures WalkEntries(source, keys, FillIn(), obj) == FilledFrom(obj, Restrict(source, keys))
  {
    if keys == [] {
      assert Restrict(source, keys) == map[];
      assert FilledFrom(obj, map[]) == obj;
    } else {
      var init, k := keys[..|keys| - 1], keys[|keys| - 1];
      assert Distinct(init);
      WalkFills(source, init, obj);
      assert k !in init by {
        forall i | 0 <= i < |init|
          ensures init[i] != k
        {
          assert keys[i] != keys[|keys| - 1];
        }
      }
      FillStep(obj, Restrict(source, init), k, source[k]);
      assert keys == init + [k];
      RestrictSnoc(source, init, k);
    }
  }

  /** Visiting the object itself first changes nothing. */
  lemma FilledFromSelf(props: map<string, Value>)
    ensures FilledFrom(props, props) == props
  {
  }

  lemma {:induction false} DefaultedSelf(props: map<string, Value>, sources: seq<map<string, Value>>)
    ensures Defaulted(props, [props] + sources) == Defaulted(props, sources)
  {
    if sources == [] {
      assert [props][..0] == [];
      FilledFromSelf(props);
    } else {
      var init := sources[..|sources| - 1];
      assert ([props] + sources)[..|sources|] == [props] + init;
      DefaultedSelf(props, init);
    }
  }

  /** `defaults(obj, ...sources)`: iterates over all its arguments, the
      object itself first, and fills in each key whose value is undefined. */
  method Defaults(obj: JsObject, sources: seq<map<string, Value>>) returns (r: JsObject)
    modifies obj
    ensures r == obj
    ensures obj.props == Defaulted(old(obj.props), sources)
  {
    var arguments := [obj.props] + sources;
    for i := 0 to |arguments|
      invariant obj.props == Defaulted(old(obj.props), arguments[..i])
    {
      var props, order := EachEntry(arguments[i], FillIn(), obj.props);
      WalkFills(arguments[i], order, obj.props);
      RestrictAll(arguments[i], order);
      assert arguments[..i + 1][..i] == arguments[..i];
      obj.props := props;
    }
    assert arguments[..|arguments|] == arguments;
    DefaultedSelf(old(obj.props), sources);
    r := obj;
  }

  lemma {:induction false} DefaultedAppend(props: map<string, Value>, a: seq<map<string, Value>>, b: seq<map<string, Value>>)
    ensures Defaulted(props, a + b) == Defaulted(Defaulted(props, a), b)
  {
    if b == [] {
      assert a + b == a;
    } else {
      var b' := b[..|b| - 1];
      assert (a + b)[..|a + b| - 1] == a + b';
      DefaultedAppend(props, a, b');
    }
  }

  /** A key that already holds a defined value is never overwritten. */
  lemma {:induction false} DefaultsKeepDefined(props: map<string, Value>, sources: seq<map<string, Value>>, key: string)
    requires Get(props, key) != Undefined
    ensures key in Defaulted(props, sources) && Defaulted(props, sources)[key] == props[key]
  {
    if sources != [] {
      DefaultsKeepDefined(props, sources[..|sources| - 1], key);
    }
  }

  /** A key no source defines stays undefined. */
  lemma {:induction false} DefaultsStayUndefined(props: map<string, Value>, sources: seq<map<string, Value>>, key: string)
    requires Get(props, key) == Undefined
    requires forall j :: 0 <= j < |sources| ==> Get(sources[j], key) == Undefined
    ensures Get(Defaulted(props, sources), key) == Undefined
  {
    if sources != [] {
      var init := sources[..|sources| - 1];
      assert forall j :: 0 <= j < |init| ==> init[j] == sources[j];
      DefaultsStayUndefined(props, init, key);
    }
  }

  /** For an undefined key, the first source that defines it provides the value. */
  lemma FirstProviderWins(props: map<string, Value>, sources: seq<map<string, Value>>, j: nat, key: string)
    requires Get(props, key) == Undefined
    requires j < |sources| && Get(sources[j], key) != Undefined
    requires forall j' :: 0 <= j' < j ==> Get(sources[j'], key) == Undefined
    ensures key in Defaulted(props, sources) && Defaulted(props, sources)[key] == sources[j][key]
  {
    var a, b := sources[..j + 1], sources[j + 1..];
    assert sources == a + b;
    DefaultedAppend(props, a, b);
    assert a[..j] == sources[..j];
    DefaultsStayUndefined(props, sources[..j], key);
    DefaultsKeepDefined(Defaulted(props, a), b, key);
  }
}
