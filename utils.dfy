/** lib/utils.js: the property-type validator `type`, `isObject`, and the deep `merge`
    that overlays the configuration file on the environment. */
module Utils {
  import opened Values

  /** What `type(options, [key], typ)` accepts for one property value. */
  predicate HasType(v: JsVal, typ: string) {
    if typ == "array" then IsArray(v) else TypeOf(v) == typ
  }

  const NoOptions := "Options is expected."

  function TypeMessage(key: string, typ: string): string {
    if typ == "array" then key + " is expected to be an array."
    else key + " is expected to be a " + typ + "."
  }

  /** The loop of `type` over the listed properties: the first one of the wrong type throws. */
  function FirstMistyped(options: JsVal, properties: seq<string>, typ: string): (r: Result<()>)
    ensures r.Ok? <==> forall i :: 0 <= i < |properties| ==> HasType(Get(options, properties[i]), typ)
    ensures r.Err? ==> exists i :: 0 <= i < |properties| && !HasType(Get(options, properties[i]), typ)
                                   && (forall j :: 0 <= j < i ==> HasType(Get(options, properties[j]), typ))
                                   && r.error == TypeError(TypeMessage(properties[i], typ))
    decreases |properties|
  {
    if properties == [] then Ok(())
    else if !HasType(Get(options, properties[0]), typ) then Err(TypeError(TypeMessage(properties[0], typ)))
    else
      var r := FirstMistyped(options, properties[1..], typ);
      assert forall i :: 1 <= i < |properties| ==> properties[i] == properties[1..][i - 1];
      r
  }

  /** `type(options, properties, typ)`: returns normally iff `options` is truthy and every listed
      property has the type (`Array.isArray` for "array", `typeof` otherwise); else throws a
      TypeError that names the first offending property. */
  function Type(options: JsVal, properties: seq<string>, typ: string): (r: Result<()>)
    ensures r.Ok? <==> Truthy(options) && forall i :: 0 <= i < |properties| ==> HasType(Get(options, properties[i]), typ)
    ensures !Truthy(options) ==> r == Err(TypeError(NoOptions))
    ensures Truthy(options) && r.Err? ==>
      exists i :: 0 <= i < |properties| && !HasType(Get(options, properties[i]), typ)
                  && (forall j :: 0 <= j < i ==> HasType(Get(options, properties[j]), typ))
                  && r.error == TypeError(TypeMessage(properties[i], typ))
  {
    if !Truthy(options) then Err(TypeError(NoOptions))
    else FirstMistyped(options, properties, typ)
  }

  /** `type` with a single property, case by case. */
  lemma TypeOne(options: JsVal, key: string, typ: string)
    ensures Type(options, [key], typ) ==
      if !Truthy(options) then Err(TypeError(NoOptions))
      else if HasType(Get(options, key), typ) then Ok(())
      else Err(TypeError(TypeMessage(key, typ)))
  {
    if Truthy(options) {
      assert [key][0] == key && [key][1..] == [];
      assert FirstMistyped(options, [key][1..], typ) == Ok(());
    }
  }

  /** `isObject(a)`: not an array and of typeof "object", which takes in null. */
  predicate IsObject(a: JsVal)
    ensures IsObject(a) <==> a.JNull? || a.JObj?
  {
    !IsArray(a) && TypeOf(a) == "object"
  }

  /** What reading `left[key]` on a null `left` throws; every failure of `merge` is this one. */
  const NullTarget := TypeError("Cannot read properties of null")

  /** `merge(left, right)`: two arrays concatenate; two objects (null included) take, for each key of
      `right`, the merge of both sides' values, keeping keys found only in `left`; anything else is
      `right`. Reading a key of a null `left` throws. */
  function Merged(left: JsVal, right: JsVal): Result<JsVal>
    decreases right, 1
  {
    if IsArray(left) && IsArray(right) then Ok(JArr(left.elems + right.elems))
    else if IsObject(left) && IsObject(right) then
      if right.JNull? then Ok(left) else MergedProps(left, right)
    else Ok(right)
  }

  /** The `for (key in right)` loop of `merge`, all at once. */
  function MergedProps(left: JsVal, right: JsVal): Result<JsVal>
    requires IsObject(left) && right.JObj?
    decreases right, 0
  {
    if right.props == map[] then Ok(left)
    else if left.JNull? then Err(NullTarget)
    else if exists k :: k in right.props && Merged(Get(left, k), right.props[k]).Err? then Err(NullTarget)
    else Ok(JObj(map k | k in left.props.Keys + right.props.Keys ::
                   if k in right.props then Merged(Get(left, k), right.props[k]).value else left.props[k]))
  }

  /** The source's `merge`, a loop over the keys of `right` that writes each merged value into
      `left`. Proved to compute Merged. */
  method Merge(left: JsVal, right: JsVal) returns (r: Result<JsVal>)
    ensures r == Merged(left, right)
    decreases right
  {
    if IsArray(left) && IsArray(right) {
      r := Ok(JArr(left.elems + right.elems));
    } else if IsObject(left) && IsObject(right) {
      if right.JNull? {
        r := Ok(left);
      } else {
        var pending := right.props.Keys;
        var acc := left;
        while pending != {}
          invariant pending <= right.props.Keys
          invariant left.JNull? ==> acc == left && pending == right.props.Keys
          invariant left.JObj? ==> acc.JObj?
          invariant left.JObj? ==> acc.props.Keys == left.props.Keys + (right.props.Keys - pending)
          invariant left.JObj? ==> forall k :: k in left.props && k !in right.props - pending ==> acc.props[k] == left.props[k]
          invariant forall k :: k in right.props && k !in pending ==>
                      Merged(Get(left, k), right.props[k]).Ok? && acc.props[k] == Merged(Get(left, k), right.props[k]).value
          decreases pending
        {
          var k :| k in pending;
          if acc.JNull? {
            assert right.props != map[];
            assert Merged(left, right) == Err(NullTarget);
            return Err(NullTarget);
          }
          assert Get(acc, k) == Get(left, k);
          assert right.props[k] in right.props.Values;
          var m := Merge(Get(acc, k), right.props[k]);
          if m.Err? {
            assert right.props != map[] && !left.JNull?;
            assert Merged(Get(left, k), right.props[k]).Err?;
            assert Merged(left, right) == Err(NullTarget);
            return Err(NullTarget);
          }
          acc := SetProp(acc, k, m.value);
          pending := pending - {k};
        }
        if left.JNull? {
          assert right.props.Keys == {};
          assert right.props == map[];
        } else {
          assert !exists k :: k in right.props && Merged(Get(left, k), right.props[k]).Err?;
          if right.props == map[] {
            assert acc.props == left.props;
          }
          assert acc.props == (map k | k in left.props.Keys + right.props.Keys ::
                   if k in right.props then Merged(Get(left, k), right.props[k]).value else left.props[k]);
        }
        assert Merged(left, right) == MergedProps(left, right);
        assert MergedProps(left, right) == Ok(acc);
        r := Ok(acc);
      }
    } else {
      r := Ok(right);
    }
  }

  lemma MergedFromUndefined(right: JsVal)
    ensures Merged(JUndefined, right) == Ok(right)
  {
  }

  /** Merging distributes over every path that is present in `right`: the merged value there is the
      merge of what each side holds there. */
  lemma {:induction false} MergeAt(left: JsVal, right: JsVal, path: seq<string>)
    requires Merged(left, right).Ok?
    requires Reaches(right, path)
    ensures Merged(At(left, path), At(right, path)).Ok?
    ensures At(Merged(left, right).value, path) == Merged(At(left, path), At(right, path)).value
    decreases |path|
  {
    if path != [] {
      var k := path[0];
      var rk := right.props[k];
      var result := Merged(left, right).value;
      if IsObject(left) {
        assert !(IsArray(left) && IsArray(right));
        assert right.props != map[];
        assert left.JObj?;
        assert Merged(Get(left, k), rk).Ok?;
        assert Get(result, k) == Merged(Get(left, k), rk).value;
        MergeAt(Get(left, k), rk, path[1..]);
      } else {
        assert result == right;
        assert At(left, path) == JUndefined by { AtUndefined(Get(left, k), path[1..]); }
        MergedFromUndefined(At(right, path));
      }
    }
  }

  lemma {:induction false} AtUndefined(v: JsVal, path: seq<string>)
    requires !v.JObj?
    ensures At(v, path) == (if path == [] then v else JUndefined)
    decreases |path|
  {
    if |path| > 1 {
      AtUndefined(JUndefined, path[1..]);
    }
  }

  /** The file's scalar values win wherever the file has them. */
  lemma FileScalarWins(left: JsVal, right: JsVal, path: seq<string>)
    requires Merged(left, right).Ok?
    requires Reaches(right, path)
    requires !IsArray(At(right, path)) && !IsObject(At(right, path))
    ensures At(Merged(left, right).value, path) == At(right, path)
  {
    MergeAt(left, right, path);
  }

  /** Arrays held at the same place on both sides concatenate, left first. */
  lemma ArraysConcatenate(left: JsVal, right: JsVal, path: seq<string>)
    requires Merged(left, right).Ok?
    requires Reaches(right, path)
    requires IsArray(At(left, path)) && IsArray(At(right, path))
    ensures At(Merged(left, right).value, path) == JArr(At(left, path).elems + At(right, path).elems)
  {
    MergeAt(left, right, path);
  }

  /** A key that `right` lacks, below objects on both sides, keeps the value `left` has there. */
  lemma LeftOnlyKept(left: JsVal, right: JsVal, path: seq<string>, k: string)
    requires Merged(left, right).Ok?
    requires Reaches(right, path) && At(right, path).JObj? && k !in At(right, path).props
    requires At(left, path).JObj?
    ensures At(Merged(left, right).value, path + [k]) == At(left, path + [k])
  {
    MergeAt(left, right, path);
    AtAppend(Merged(left, right).value, path, k);
    AtAppend(left, path, k);
  }
}
