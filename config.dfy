/** config.js: `config(appname)(env, file)` builds the options object from the environment
    variables named `appname...` and overlays the configuration file on it. */
module Config {
  import opened Values
  import opened Utils

  /** The environment as `Object.keys(env)` lists it: each variable name with its text. */
  type Env = seq<(string, string)>

  /** A variable split into its path, with its unparsed text. */
  type Entry = (seq<string>, string)

  /** `JSON.parse`, given as a partial function: None where it throws. */
  type Parser = string -> Option<JsVal>

  predicate StartsWith(s: string, prefix: string) {
    |prefix| <= |s| && s[..|prefix|] == prefix
  }

  /** The filter step: the variables whose name matches `^appname`, in their order. */
  function Selected(env: Env, appname: string): (r: Env)
    ensures forall e :: e in r <==> e in env && StartsWith(e.0, appname)
    ensures (forall i :: 0 <= i < |env| ==> StartsWith(env[i].0, appname)) ==> r == env
    decreases |env|
  {
    if env == [] then []
    else (if StartsWith(env[0].0, appname) then [env[0]] else []) + Selected(env[1..], appname)
  }

  /** The filter keeps the environment's order: the selection of two runs of variables is the
      selection of the first followed by that of the second. */
  lemma {:induction false} SelectedAppend(a: Env, b: Env, appname: string)
    ensures Selected(a + b, appname) == Selected(a, appname) + Selected(b, appname)
    decreases |a|
  {
    if a == [] {
      assert a + b == b;
    } else {
      assert (a + b)[1..] == a[1..] + b;
      SelectedAppend(a[1..], b, appname);
    }
  }

  /** A variable whose name does not match leaves the selection as it is, wherever it stands. */
  lemma {:induction false} UnmatchedDropped(before: Env, e: (string, string), after: Env, appname: string)
    requires !StartsWith(e.0, appname)
    ensures Selected(before + [e] + after, appname) == Selected(before + after, appname)
    decreases |before|
  {
    if before == [] {
      assert before + [e] + after == [e] + after && before + after == after;
      assert ([e] + after)[1..] == after;
    } else {
      assert (before + [e] + after)[1..] == before[1..] + [e] + after;
      assert (before + after)[1..] == before[1..] + after;
      UnmatchedDropped(before[1..], e, after, appname);
    }
  }

  /** `key.split('__')`: the pieces between separators found left to right without overlap. */
  function Split(s: string): (parts: seq<string>)
    ensures |parts| >= 1
    decreases |s|
  {
    if |s| >= 2 && s[..2] == "__" then [""] + Split(s[2..])
    else if s == [] then [""]
    else
      var rest := Split(s[1..]);
      [[s[0]] + rest[0]] + rest[1..]
  }

  /** The separator `__` occurs in `p`. */
  predicate HasSeparator(p: string) {
    exists j :: 0 <= j < |p| - 1 && p[j] == '_' && p[j + 1] == '_'
  }

  /** The first piece is a prefix of the name, and when more pieces follow, a `__` comes
      right after it. */
  lemma {:induction false} SplitHead(s: string)
    ensures var p := Split(s)[0]; |p| <= |s| && s[..|p|] == p
    ensures var p := Split(s)[0]; |Split(s)| > 1 ==> |p| + 2 <= |s| && s[|p|..|p| + 2] == "__"
    decreases |s|
  {
    if !(|s| >= 2 && s[..2] == "__") && s != [] {
      SplitHead(s[1..]);
    }
  }

  /** `split('__')` cuts at the separators found left to right: no piece holds a `__`, and no
      piece but the last ends in `_` (so `a___b` gives `a` and `_b`). With `JoinSplit` this
      fixes the pieces. */
  lemma {:induction false} SplitPieces(s: string)
    ensures forall i :: 0 <= i < |Split(s)| ==> !HasSeparator(Split(s)[i])
    ensures forall i :: 0 <= i < |Split(s)| - 1 ==> Split(s)[i] == [] || Split(s)[i][|Split(s)[i]| - 1] != '_'
    decreases |s|
  {
    var parts := Split(s);
    if |s| >= 2 && s[..2] == "__" {
      SplitPieces(s[2..]);
      assert parts[1..] == Split(s[2..]);
    } else if s != [] {
      var rest := Split(s[1..]);
      SplitPieces(s[1..]);
      SplitHead(s[1..]);
      var head := [s[0]] + rest[0];
      assert parts[0] == head && parts[1..] == rest[1..];
      assert !HasSeparator(head) by {
        forall k | 0 <= k < |head| - 1 ensures !(head[k] == '_' && head[k + 1] == '_') {
          if k == 0 {
            assert head[1] == rest[0][0] == s[1];
            assert s[..2] == [s[0], s[1]];
          } else {
            assert head[k] == rest[0][k - 1] && head[k + 1] == rest[0][k];
          }
        }
      }
      if |rest| > 1 && rest[0] == [] {
        assert s[1..][..2] == "__";
        assert s[1] == '_' && s[..2] == [s[0], s[1]];
      }
      forall i | 0 <= i < |parts| ensures !HasSeparator(parts[i]) {
        if i > 0 { assert parts[i] == rest[i]; }
      }
      forall i | 0 <= i < |parts| - 1 ensures parts[i] == [] || parts[i][|parts[i]| - 1] != '_' {
        if i > 0 { assert parts[i] == rest[i]; }
        else if |rest[0]| > 0 { assert parts[0][|parts[0]| - 1] == rest[0][|rest[0]| - 1]; }
      }
    }
  }

  /** `parts.join('__')`. */
  function Join(parts: seq<string>): string
    requires |parts| >= 1
    decreases |parts|
  {
    if |parts| == 1 then parts[0] else parts[0] + "__" + Join(parts[1..])
  }

  /** Splitting loses nothing: joining the pieces gives the name back, so distinct
      names have distinct paths. */
  lemma {:induction false} JoinSplit(s: string)
    ensures Join(Split(s)) == s
    decreases |s|
  {
    if |s| >= 2 && s[..2] == "__" {
      JoinSplit(s[2..]);
      assert s == "__" + s[2..];
    } else if s != [] {
      var rest := Split(s[1..]);
      JoinSplit(s[1..]);
      var parts := Split(s);
      assert parts[0] == [s[0]] + rest[0] && parts[1..] == rest[1..];
      assert s == [s[0]] + s[1..];
    }
  }

  /** `JSON.parse(text)`, or the text itself when it is not JSON. */
  function Parsed(parse: Parser, text: string): JsVal {
    match parse(text)
    case Some(v) => v
    case None => JStr(text)
  }

  const Unexpected := TypeError("Unexpected env variable.")

  /** The reducer's `for` loop, from the value the cursor `r` is on: each step reads `r[k]`; a truthy
      non-object throws; a falsy value is replaced, by `v` on the last segment and by `{}` before it;
      a truthy object on the last segment throws; otherwise the cursor moves down into it. */
  function Insert(r: JsVal, path: seq<string>, v: JsVal): Result<JsVal>
    decreases |path|
  {
    if path == [] then Ok(r)
    else if !r.JObj? then Err(ArrayCursor)
    else
      var k := path[0];
      var cur := Get(r, k);
      if Truthy(cur) && TypeOf(cur) != "object" then Err(Unexpected)
      else if !Truthy(cur) then
        if |path| == 1 then Ok(SetProp(r, k, v))
        else
          var sub :- Insert(JObj(map[]), path[1..], v);
          Ok(SetProp(r, k, sub))
      else if |path| == 1 then Err(Unexpected)
      else
        var sub :- Insert(cur, path[1..], v);
        Ok(SetProp(r, k, sub))
  }

  /** A successful insertion leaves `v` at the end of the path. */
  lemma {:induction false} InsertStores(r: JsVal, path: seq<string>, v: JsVal)
    requires |path| > 0 && Insert(r, path, v).Ok?
    ensures At(Insert(r, path, v).value, path) == v
    decreases |path|
  {
    var k := path[0];
    var cur := Get(r, k);
    if |path| > 1 {
      var below := if Truthy(cur) then cur else JObj(map[]);
      InsertStores(below, path[1..], v);
    }
  }

  /** The only top-level property an insertion adds or changes is the first segment of its path. */
  lemma InsertTopLevel(r: JsVal, path: seq<string>, v: JsVal)
    requires r.JObj? && |path| > 0 && Insert(r, path, v).Ok?
    ensures Insert(r, path, v).value.JObj?
    ensures Insert(r, path, v).value.props.Keys == r.props.Keys + {path[0]}
    ensures forall k :: k in r.props && k != path[0] ==> Insert(r, path, v).value.props[k] == r.props[k]
  {
  }

  /** A path into a fresh `{}` always succeeds. */
  lemma {:induction false} InsertIntoEmpty(path: seq<string>, v: JsVal)
    ensures Insert(JObj(map[]), path, v).Ok?
    decreases |path|
  {
    if |path| > 1 {
      InsertIntoEmpty(path[1..], v);
    }
  }

  /** Slicing facts for walking one level down a path. */
  lemma Descend(path: seq<string>, j: nat)
    requires 0 < j < |path|
    ensures path[..j][1..] == path[1..][..j - 1]
    ensures path[..j + 1][1..] == path[1..][..j]
  {
  }

  /** Where the path runs through objects and then meets a missing or falsy value, the
      missing levels are created and the insertion succeeds. */
  lemma {:induction false} InsertCreates(r: JsVal, path: seq<string>, v: JsVal, j: nat)
    requires j < |path| && ObjPath(r, path[..j]) && !Truthy(At(r, path[..j + 1]))
    ensures Insert(r, path, v).Ok? && At(Insert(r, path, v).value, path) == v
    decreases j
  {
    if j == 0 {
      assert At(r, path[..1]) == At(Get(r, path[0]), []);
      if |path| > 1 {
        InsertIntoEmpty(path[1..], v);
      }
    } else {
      Descend(path, j);
      InsertCreates(Get(r, path[0]), path[1..], v, j - 1);
    }
    InsertStores(r, path, v);
  }

  /** Walking into a truthy value that is not an object throws. */
  lemma {:induction false} InsertRejectsScalar(r: JsVal, path: seq<string>, v: JsVal, j: nat)
    requires j < |path| && ObjPath(r, path[..j])
    requires Truthy(At(r, path[..j + 1])) && TypeOf(At(r, path[..j + 1])) != "object"
    ensures Insert(r, path, v) == Err(Unexpected)
    decreases j
  {
    if j == 0 {
      assert At(r, path[..1]) == At(Get(r, path[0]), []);
    } else {
      Descend(path, j);
      InsertRejectsScalar(Get(r, path[0]), path[1..], v, j - 1);
    }
  }

  /** A name that is a strict prefix of an earlier one finds an object at its last segment and throws. */
  lemma {:induction false} InsertRejectsPrefix(r: JsVal, path: seq<string>, v: JsVal)
    requires |path| > 0 && ObjPath(r, path[..|path| - 1])
    requires Truthy(At(r, path)) && TypeOf(At(r, path)) == "object"
    ensures Insert(r, path, v) == Err(Unexpected)
    decreases |path|
  {
    if |path| == 1 {
      assert At(r, path) == At(Get(r, path[0]), []);
    } else {
      Descend(path, |path| - 1);
      assert path[..|path|][1..] == path[1..];
      InsertRejectsPrefix(Get(r, path[0]), path[1..], v);
    }
  }

  /** The reducer's accumulator after the given entries, starting from `{}`. */
  function Fold(parse: Parser, entries: seq<Entry>): Result<JsVal>
    decreases |entries|
  {
    if entries == [] then Ok(JObj(map[]))
    else
      var root :- Fold(parse, entries[..|entries| - 1]);
      var e := entries[|entries| - 1];
      Insert(root, e.0, Parsed(parse, e.1))
  }

  /** Once an entry throws, the whole reduction throws that error. */
  lemma {:induction false} FoldStops(parse: Parser, entries: seq<Entry>, i: nat)
    requires i <= |entries| && Fold(parse, entries[..i]).Err?
    ensures Fold(parse, entries) == Fold(parse, entries[..i])
    decreases |entries| - i
  {
    if i < |entries| {
      assert entries[..i + 1][..i] == entries[..i];
      FoldStops(parse, entries, i + 1);
    } else {
      assert entries[..i] == entries;
    }
  }

  /** Every top-level property of the tree is the first segment of some entry's path. */
  lemma {:induction false} FoldRoots(parse: Parser, entries: seq<Entry>)
    requires forall i :: 0 <= i < |entries| ==> |entries[i].0| > 0
    requires Fold(parse, entries).Ok?
    ensures Fold(parse, entries).value.JObj?
    ensures forall k :: k in Fold(parse, entries).value.props ==>
              exists i :: 0 <= i < |entries| && entries[i].0[0] == k
    decreases |entries|
  {
    if entries != [] {
      var init := entries[..|entries| - 1];
      FoldRoots(parse, init);
      var e := entries[|entries| - 1];
      InsertTopLevel(Fold(parse, init).value, e.0, Parsed(parse, e.1));
      forall k | k in Fold(parse, entries).value.props
        ensures exists i :: 0 <= i < |entries| && entries[i].0[0] == k
      {
        if k != e.0[0] {
          var i :| 0 <= i < |init| && init[i].0[0] == k;
          assert entries[i] == init[i];
        }
      }
    }
  }

  /** The reduce call: one insertion per entry into the accumulator, stopping at the first throw. */
  method BuildTree(parse: Parser, entries: seq<Entry>) returns (r: Result<JsVal>)
    ensures r == Fold(parse, entries)
  {
    var root := JObj(map[]);
    for i := 0 to |entries|
      invariant Fold(parse, entries[..i]) == Ok(root)
    {
      var e := entries[i];
      var next := Insert(root, e.0, Parsed(parse, e.1));
      assert entries[..i + 1][..i] == entries[..i];
      if next.Err? {
        FoldStops(parse, entries, i + 1);
        return next;
      }
      root := next.value;
    }
    assert entries[..|entries|] == entries;
    r := Ok(root);
  }

  /** The split step: each selected name becomes its path. */
  function Paths(env: Env): seq<Entry> {
    seq(|env|, i requires 0 <= i < |env| => (Split(env[i].0), env[i].1))
  }

  /** `config(appname)(env, file)`: the `appname` subtree of the environment tree, with the
      file merged over it. */
  function Configured(appname: string, parse: Parser, env: Env, file: JsVal): Result<JsVal> {
    var tree :- Fold(parse, Paths(Selected(env, appname)));
    Merged(Get(tree, appname), file)
  }

  method Configure(appname: string, parse: Parser, env: Env, file: JsVal) returns (r: Result<JsVal>)
    ensures r == Configured(appname, parse, env, file)
  {
    var entries := Paths(Selected(env, appname));
    var tree := BuildTree(parse, entries);
    if tree.Err? {
      return Err(tree.error);
    }
    r := Merge(Get(tree.value, appname), file);
  }

  /** A variable that does not match `^appname` has no effect on the result. */
  lemma UnmatchedIgnored(appname: string, parse: Parser, before: Env, e: (string, string), after: Env, file: JsVal)
    requires !StartsWith(e.0, appname)
    ensures Configured(appname, parse, before + [e] + after, file) == Configured(appname, parse, before + after, file)
  {
    UnmatchedDropped(before, e, after, appname);
  }

  /** When no selected name has `appname` as its first segment (`appnameX__a` passes the filter
      but lands under `appnameX`), the result is the file configuration itself. */
  lemma FileOnly(appname: string, parse: Parser, env: Env, file: JsVal)
    requires forall e :: e in env && StartsWith(e.0, appname) ==> Split(e.0)[0] != appname
    requires Fold(parse, Paths(Selected(env, appname))).Ok?
    ensures Configured(appname, parse, env, file) == Ok(file)
  {
    var selected := Selected(env, appname);
    var entries := Paths(selected);
    forall i | 0 <= i < |entries| ensures |entries[i].0| > 0 && entries[i].0[0] != appname {
      assert selected[i] in selected;
    }
    FoldRoots(parse, entries);
    assert appname !in Fold(parse, entries).value.props;
    MergedFromUndefined(file);
  }
}
