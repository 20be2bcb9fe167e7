/** The patch engine: a whole-document replace, a set at a path and a delete at a
    dotted key, on a deep copy of the stored document.

    The source walks the copy with a `ref` that aliases the node it has reached and
    writes through it. Here each walk is a loop that keeps the nodes it passed in a
    trail of frames; writing the final node back up the trail (Plug) is what those
    aliased writes do to the copy. Each loop is proved equal to a recursive function
    (SetIn, DeleteIn), and the lemmas state what those functions do to the document. */
module Patch {
  import opened Wrappers
  import opened Json

  /** The edit ApplyPatch receives: `{full: v}`, or `{path, value}` with the path's
      segments as property keys (a numeric segment `n` is the key `String(n)`). */
  datatype Edit = Full(doc: Json) | SetPath(path: seq<string>, value: Json)

  /** What an edit does to the copy: the document to write back, a refusal
      ("Invalid path"), or a TypeError thrown before anything is written. */
  datatype EditResult = Written(doc: Json) | InvalidPath | Thrown

  /** A path the model covers: not empty, and no segment is the prototype accessor. */
  predicate PathOk(path: seq<string>) {
    |path| > 0 && forall i :: 0 <= i < |path| ==> path[i] != "__proto__"
  }

  // ---------------------------------------------------------------------------
  // Reading along a path

  /** The JSON entry reached by following the keys of `q` from `v`. */
  function GetPath(v: Json, q: seq<string>): Option<Json>
    decreases |q|
  {
    if q == [] then Some(v)
    else match Child(v, q[0])
      case None => None
      case Some(x) => GetPath(x, q[1..])
  }

  /** The entry at `q` exists and is an object or an array. */
  predicate ObjectAt(v: Json, q: seq<string>) {
    GetPath(v, q).Some? && IsObject(GetPath(v, q).value)
  }

  /** The node the set walk stands on after following `q`: the existing object or
      array there, or `{}` where the walk had to create one. */
  function Container(v: Json, q: seq<string>): Json {
    if ObjectAt(v, q) then GetPath(v, q).value else Empty
  }

  // ---------------------------------------------------------------------------
  // Setting a value at a path (client.js ApplyPatch, path branch)

  /** The node the set walk moves to at key `k`: `c[k]` when that is an object or an
      array, otherwise the `{}` the walk stores there. */
  function Descend(c: Json, k: string): (d: Json)
    ensures IsObject(d)
  {
    var x := Child(c, k);
    if x.Some? && IsObject(x.value) then x.value else Empty
  }

  /** Every store the set walk makes is a plain store of a JSON entry (see Writable). */
  predicate SetDefined(c: Json, path: seq<string>)
    decreases |path|
  {
    |path| > 0 && Writable(c, path[0]) &&
    (|path| > 1 ==> SetDefined(Descend(c, path[0]), path[1..]))
  }

  /** The copy after the set walk: `value` stored at `path`, every missing or
      non-object intermediate replaced by `{}`. */
  function SetIn(c: Json, path: seq<string>, value: Json): Json
    requires SetDefined(c, path)
    decreases |path|
  {
    if |path| == 1 then Put(c, path[0], value)
    else Put(c, path[0], SetIn(Descend(c, path[0]), path[1..], value))
  }

  /** One step of a walk: the node at `q` is the node at `q[1..]` below the first step. */
  lemma ContainerStep(c: Json, q: seq<string>)
    requires |q| > 0
    ensures Container(c, q) == Container(Descend(c, q[0]), q[1..])
  {
    var x := Child(c, q[0]);
    assert q != [];
    if x.Some? && IsObject(x.value) {
      assert GetPath(c, q) == GetPath(x.value, q[1..]);
    } else if |q| > 1 {
      assert q[1..] != [];
      assert GetPath(Empty, q[1..]) == None;
      if x.Some? {
        assert Child(x.value, q[1..][0]) == None;
        assert GetPath(x.value, q[1..]) == None;
      }
      assert GetPath(c, q) == None;
    } else {
      assert q[1..] == [];
      assert x.Some? ==> GetPath(c, q) == Some(x.value);
    }
  }

  /** After the set, the value at the path is the value set. */
  lemma {:induction false} SetReaches(c: Json, path: seq<string>, value: Json)
    requires SetDefined(c, path)
    ensures GetPath(SetIn(c, path, value), path) == Some(value)
    decreases |path|
  {
    var k := path[0];
    if |path| == 1 {
      ChildOfPut(c, k, value, k);
      assert path[1..] == [];
    } else {
      var d := Descend(c, k);
      SetReaches(d, path[1..], value);
      ChildOfPut(c, k, SetIn(d, path[1..], value), k);
    }
  }

  /** After the set, the node at each proper prefix `path[..j]` is the node the walk
      found there (an existing object or array, whatever else it holds) or `{}` where
      there was none, with only its entry `path[j]` rewritten. */
  lemma {:induction false} SetAlongPath(c: Json, path: seq<string>, value: Json, j: nat)
    requires SetDefined(c, path) && j < |path|
    ensures Writable(Container(c, path[..j]), path[j])
    ensures GetPath(SetIn(c, path, value), path[..j + 1]).Some?
    ensures GetPath(SetIn(c, path, value), path[..j]) ==
            Some(Put(Container(c, path[..j]), path[j], GetPath(SetIn(c, path, value), path[..j + 1]).value))
    decreases j
  {
    var k := path[0];
    var r := SetIn(c, path, value);
    var sub := if |path| == 1 then value else SetIn(Descend(c, k), path[1..], value);
    assert r == Put(c, k, sub);
    ChildOfPut(c, k, sub, k);
    if j == 0 {
      assert path[..0] == [] && path[..1] == [k] && [k][1..] == [];
    } else {
      var d := Descend(c, k);
      var rest := path[1..];
      SetAlongPath(d, rest, value, j - 1);
      assert path[..j][0] == k && path[..j][1..] == rest[..j - 1];
      assert path[..j + 1][0] == k && path[..j + 1][1..] == rest[..j];
      ContainerStep(c, path[..j]);
    }
  }

  /** After the set, every entry off the path keeps its value: whatever lies under a
      key `q[j]` that leaves the path at depth `j` is as it was. */
  lemma {:induction false} SetOffPath(c: Json, path: seq<string>, value: Json, q: seq<string>, j: nat)
    requires SetDefined(c, path)
    requires j < |path| && j < |q| && q[..j] == path[..j] && q[j] != path[j]
    ensures GetPath(SetIn(c, path, value), q) == GetPath(c, q)
    decreases j
  {
    var k := path[0];
    var sub := if |path| == 1 then value else SetIn(Descend(c, k), path[1..], value);
    assert SetIn(c, path, value) == Put(c, k, sub);
    ChildOfPut(c, k, sub, q[0]);
    if j > 0 {
      assert q[0] == q[..j][0] == path[..j][0] == k;
      var d := Descend(c, k);
      assert q[1..][..j - 1] == q[..j][1..] && path[1..][..j - 1] == path[..j][1..];
      SetOffPath(d, path[1..], value, q[1..], j - 1);
      var x := Child(c, k);
      if !(x.Some? && IsObject(x.value)) {
        assert q[1..] != [];
        assert GetPath(Empty, q[1..]) == None;
        if x.Some? {
          assert Child(x.value, q[1..][0]) == None;
        }
      }
    }
  }

  /** Setting `["a","b"]` to 5 on `{}` gives `{"a":{"b":5}}`. */
  lemma SetExample()
    ensures SetDefined(Empty, ["a", "b"])
    ensures SetIn(Empty, ["a", "b"], JNumber(5.0)) == JObject(map["a" := JObject(map["b" := JNumber(5.0)])])
  {
    assert ["a", "b"][1..] == ["b"];
  }

  // ---------------------------------------------------------------------------
  // Deleting the key at a path (client.js, deleteKeyBtn handler)

  /** The delete walk stays within what the model covers: no prototype-accessor segment
      on the way, and the final delete does not punch a hole into an array. */
  predicate DeleteDefined(c: Json, path: seq<string>)
    decreases |path|
  {
    |path| > 0 && path[0] != "__proto__" &&
    if |path| == 1 then !RemovesElement(c, path[0])
    else
      var x := Child(c, path[0]);
      x.Some? && IsObject(x.value) ==> DeleteDefined(x.value, path[1..])
  }

  /** The copy after the delete walk: refused when an intermediate is not an object or
      array, otherwise the final key removed (or the TypeError that removal throws). */
  function DeleteIn(c: Json, path: seq<string>): EditResult
    requires DeleteDefined(c, path)
    decreases |path|
  {
    if |path| == 1 then
      match Remove(c, path[0])
      case None => Thrown
      case Some(d) => Written(d)
    else
      var x := Child(c, path[0]);
      if x.Some? && IsObject(x.value) then
        match DeleteIn(x.value, path[1..])
        case Written(d) => Written(Put(c, path[0], d))
        case other => other
      else InvalidPath
  }

  /** Every intermediate of the path (every proper non-empty prefix) is an object or array. */
  predicate IntermediatesAreObjects(c: Json, path: seq<string>) {
    forall j :: 1 <= j < |path| ==> ObjectAt(c, path[..j])
  }

  /** The delete refuses exactly when some intermediate is not a non-null object. */
  lemma {:induction false} DeleteRefusal(c: Json, path: seq<string>)
    requires DeleteDefined(c, path)
    ensures DeleteIn(c, path) == InvalidPath <==> !IntermediatesAreObjects(c, path)
    decreases |path|
  {
    if |path| > 1 {
      var k := path[0];
      var x := Child(c, k);
      assert path[..1] == [k] && [k][1..] == [];
      if x.Some? && IsObject(x.value) {
        var rest := path[1..];
        DeleteRefusal(x.value, rest);
        forall j | 1 <= j < |path|
          ensures ObjectAt(c, path[..j]) == (j == 1 || ObjectAt(x.value, rest[..j - 1]))
        {
          assert path[..j] != [] && path[..j][0] == k && path[..j][1..] == rest[..j - 1];
          assert GetPath(c, path[..j]) == GetPath(x.value, rest[..j - 1]);
          assert rest[..0] == [];
        }
        if !IntermediatesAreObjects(x.value, rest) {
          var j :| 1 <= j < |rest| && !ObjectAt(x.value, rest[..j]);
          assert !ObjectAt(c, path[..j + 1]);
        }
        if !IntermediatesAreObjects(c, path) {
          var j :| 1 <= j < |path| && !ObjectAt(c, path[..j]);
          assert !ObjectAt(x.value, rest[..j - 1]);
        }
      } else {
        assert path[..1] != [] && path[..1][0] == k && path[..1][1..] == [];
        if x.Some? {
          assert GetPath(c, path[..1]) == GetPath(x.value, []) == x;
        }
        assert !ObjectAt(c, path[..1]);
      }
    }
  }

  /** The delete throws exactly when every intermediate is an object or array and
      removing the final key from the last of them throws. */
  lemma {:induction false} DeleteThrows(c: Json, path: seq<string>)
    requires DeleteDefined(c, path)
    ensures IntermediatesAreObjects(c, path) ==>
              GetPath(c, path[..|path| - 1]).Some? &&
              !RemovesElement(GetPath(c, path[..|path| - 1]).value, path[|path| - 1])
    ensures DeleteIn(c, path).Thrown? <==>
              IntermediatesAreObjects(c, path) &&
              Remove(GetPath(c, path[..|path| - 1]).value, path[|path| - 1]).None?
    decreases |path|
  {
    var n := |path|;
    var k := path[0];
    if n == 1 {
      assert path[..0] == [];
    } else {
      var x := Child(c, k);
      DeleteRefusal(c, path);
      if x.Some? && IsObject(x.value) {
        var rest := path[1..];
        DeleteRefusal(x.value, rest);
        DeleteThrows(x.value, rest);
        assert path[..n - 1] != [] && path[..n - 1][0] == k && path[..n - 1][1..] == rest[..n - 2];
        assert GetPath(c, path[..n - 1]) == GetPath(x.value, rest[..n - 2]);
        assert path[n - 1] == rest[n - 2];
      }
    }
  }

  /** A delete that goes through leaves nothing at the deleted path. */
  lemma {:induction false} DeleteRemovesKey(c: Json, path: seq<string>)
    requires DeleteDefined(c, path) && DeleteIn(c, path).Written?
    ensures GetPath(DeleteIn(c, path).doc, path) == None
    decreases |path|
  {
    var k := path[0];
    if |path| > 1 {
      var x := Child(c, k).value;
      var d := DeleteIn(x, path[1..]).doc;
      DeleteRemovesKey(x, path[1..]);
      ChildOfPut(c, k, d, k);
    }
  }

  /** A delete that goes through changes only the entry it deletes: every node along
      the path is the node that was there with only its entry `path[j]` rewritten, and
      the last one is the node with that key removed. */
  lemma {:induction false} DeleteAlongPath(c: Json, path: seq<string>, j: nat)
    requires DeleteDefined(c, path) && DeleteIn(c, path).Written? && j < |path|
    ensures GetPath(c, path[..j]).Some? && GetPath(DeleteIn(c, path).doc, path[..j]).Some?
    ensures j == |path| - 1 ==>
              !RemovesElement(GetPath(c, path[..j]).value, path[j]) &&
              Remove(GetPath(c, path[..j]).value, path[j]) == GetPath(DeleteIn(c, path).doc, path[..j])
    ensures j < |path| - 1 ==>
              Writable(GetPath(c, path[..j]).value, path[j]) &&
              GetPath(DeleteIn(c, path).doc, path[..j + 1]).Some? &&
              GetPath(DeleteIn(c, path).doc, path[..j]) ==
              Some(Put(GetPath(c, path[..j]).value, path[j], GetPath(DeleteIn(c, path).doc, path[..j + 1]).value))
    decreases j
  {
    var k := path[0];
    var r := DeleteIn(c, path).doc;
    assert path[..0] == [];
    if |path| > 1 {
      var x := Child(c, k).value;
      var rest := path[1..];
      var d := DeleteIn(x, rest).doc;
      assert r == Put(c, k, d);
      ChildOfPut(c, k, d, k);
      if j == 0 {
        assert path[..1] == [k] && [k][1..] == [];
      } else {
        DeleteAlongPath(x, rest, j - 1);
        assert path[..j][0] == k && path[..j][1..] == rest[..j - 1];
        assert path[..j + 1][0] == k && path[..j + 1][1..] == rest[..j];
      }
    }
  }

  /** A delete that goes through leaves every entry off the path as it was. */
  lemma {:induction false} DeleteOffPath(c: Json, path: seq<string>, q: seq<string>, j: nat)
    requires DeleteDefined(c, path) && DeleteIn(c, path).Written?
    requires j < |path| && j < |q| && q[..j] == path[..j] && q[j] != path[j]
    ensures GetPath(DeleteIn(c, path).doc, q) == GetPath(c, q)
    decreases j
  {
    var k := path[0];
    var r := DeleteIn(c, path).doc;
    if |path| == 1 {
      assert j == 0;
      assert Child(r, q[0]) == Child(c, q[0]);
    } else {
      var x := Child(c, k).value;
      var d := DeleteIn(x, path[1..]).doc;
      ChildOfPut(c, k, d, q[0]);
      if j > 0 {
        assert q[0] == q[..j][0] == path[..j][0] == k;
        assert q[1..][..j - 1] == q[..j][1..] && path[1..][..j - 1] == path[..j][1..];
        DeleteOffPath(x, path[1..], q[1..], j - 1);
      }
    }
  }

  /** Deleting `a.b` on `{"a":{"b":5,"c":1}}` gives
      `{"a":{"c":1}}`; deleting `x.y` on `{}` is refused. */
  lemma DeleteExamples()
    ensures DeleteDefined(JObject(map["a" := JObject(map["b" := JNumber(5.0), "c" := JNumber(1.0)])]), ["a", "b"])
    ensures DeleteIn(JObject(map["a" := JObject(map["b" := JNumber(5.0), "c" := JNumber(1.0)])]), ["a", "b"]) ==
            Written(JObject(map["a" := JObject(map["c" := JNumber(1.0)])]))
    ensures DeleteDefined(Empty, ["x", "y"]) && DeleteIn(Empty, ["x", "y"]) == InvalidPath
  {
    var inner := map["b" := JNumber(5.0), "c" := JNumber(1.0)];
    var outer := map["a" := JObject(inner)];
    assert ["a", "b"][1..] == ["b"];
    assert inner - {"b"} == map["c" := JNumber(1.0)];
    assert Remove(JObject(inner), "b") == Some(JObject(map["c" := JNumber(1.0)]));
    assert DeleteIn(JObject(inner), ["b"]) == Written(JObject(map["c" := JNumber(1.0)]));
    assert outer["a" := JObject(map["c" := JNumber(1.0)])] == map["a" := JObject(map["c" := JNumber(1.0)])];
  }

  // ---------------------------------------------------------------------------
  // The walks as the source writes them: loops over the path with an aliasing `ref`

  /** `ref` stood on `container` and went on through `key`. */
  datatype Frame = Frame(container: Json, key: string)

  predicate FramesOk(trail: seq<Frame>) {
    forall i :: 0 <= i < |trail| ==> Writable(trail[i].container, trail[i].key)
  }

  /** The copy once `x` has been written through the frames, innermost frame last: what
      the writes through the aliasing `ref` amount to. */
  function Plug(trail: seq<Frame>, x: Json): Json
    requires FramesOk(trail)
    decreases |trail|
  {
    if trail == [] then x
    else
      var f := trail[|trail| - 1];
      Plug(trail[..|trail| - 1], Put(f.container, f.key, x))
  }

  /** The set walk of ApplyPatch (client.js:71-78) on the copy `cur`. */
  method WalkSet(cur: Json, path: seq<string>, value: Json) returns (r: Json)
    requires SetDefined(cur, path)
    ensures r == SetIn(cur, path, value)
  {
    var trail: seq<Frame> := [];
    var ref := cur;
    var i := 0;
    while i < |path| - 1
      invariant 0 <= i < |path|
      invariant FramesOk(trail) && SetDefined(ref, path[i..])
      invariant Plug(trail, SetIn(ref, path[i..], value)) == SetIn(cur, path, value)
    {
      var k := path[i];
      // a missing, null or primitive entry becomes `{}` and the walk moves into it; that
      // store of `{}` is subsumed by the write-back through this frame
      var next := Descend(ref, k);
      ghost var rest := SetIn(next, path[i + 1..], value);
      assert path[i..][0] == k && path[i..][1..] == path[i + 1..];
      assert SetIn(ref, path[i..], value) == Put(ref, k, rest);
      var trail' := trail + [Frame(ref, k)];
      assert trail'[..|trail|] == trail;
      trail, ref, i := trail', next, i + 1;
    }
    assert path[i..] == [path[i]];
    r := Plug(trail, Put(ref, path[i], value));
  }

  /** The result of a walk below the trail, written back through it. */
  function Rewrap(trail: seq<Frame>, e: EditResult): EditResult
    requires FramesOk(trail)
  {
    match e
    case Written(d) => Written(Plug(trail, d))
    case other => other
  }

  /** The delete walk of the deleteKeyBtn handler (client.js:194-200) on the copy `cur`. */
  method WalkDelete(cur: Json, path: seq<string>) returns (r: EditResult)
    requires DeleteDefined(cur, path)
    ensures r == DeleteIn(cur, path)
  {
    var trail: seq<Frame> := [];
    var ref := cur;
    var i := 0;
    while i < |path| - 1
      invariant 0 <= i < |path|
      invariant FramesOk(trail) && DeleteDefined(ref, path[i..])
      invariant Rewrap(trail, DeleteIn(ref, path[i..])) == DeleteIn(cur, path)
    {
      var k := path[i];
      var x := Child(ref, k);
      assert path[i..][0] == k && path[i..][1..] == path[i + 1..];
      if !(x.Some? && IsObject(x.value)) {
        return InvalidPath;
      }
      var trail' := trail + [Frame(ref, k)];
      assert trail'[..|trail|] == trail;
      trail, ref, i := trail', x.value, i + 1;
    }
    assert path[i..] == [path[i]];
    match Remove(ref, path[i]) {
      case None => r := Thrown;
      case Some(d) => r := Written(Plug(trail, d));
    }
  }

  // ---------------------------------------------------------------------------
  // The document-level edits, starting from `ymap.get('doc') || {}`

  /** What ApplyPatch needs of a path patch: a covered path, and plain stores all the
      way when the starting document is an object or array. */
  predicate PatchDefined(stored: Option<Json>, p: Edit) {
    p.SetPath? ==>
      PathOk(p.path) && (IsObject(StartValue(stored)) ==> SetDefined(StartValue(stored), p.path))
  }

  /** The document ApplyPatch writes for `p`. A path set on a primitive document throws
      a TypeError at its first store (module code runs in strict mode). */
  function PatchResult(stored: Option<Json>, p: Edit): EditResult
    requires PatchDefined(stored, p)
  {
    match p
    case Full(v) => Written(v)
    case SetPath(path, v) =>
      var root := StartValue(stored);
      if IsObject(root) then Written(SetIn(root, path, v)) else Thrown
  }

  /** A full replace writes exactly the new document; a path set either throws, on a
      primitive document, or writes a document holding the value at the path. */
  lemma PatchResultMeaning(stored: Option<Json>, p: Edit)
    requires PatchDefined(stored, p)
    ensures p.Full? ==> PatchResult(stored, p) == Written(p.doc)
    ensures p.SetPath? ==> !PatchResult(stored, p).InvalidPath?
    ensures p.SetPath? ==> (PatchResult(stored, p).Thrown? <==> !IsObject(StartValue(stored)))
    ensures p.SetPath? && PatchResult(stored, p).Written? ==>
              GetPath(PatchResult(stored, p).doc, p.path) == Some(p.value)
  {
    if p.SetPath? && IsObject(StartValue(stored)) {
      SetReaches(StartValue(stored), p.path, p.value);
    }
  }

  // ---------------------------------------------------------------------------
  // `key.split('.')`

  /** `s.split('.')`: the pieces between the dots, in order. */
  function Split(s: string): (parts: seq<string>)
    ensures |parts| >= 1
    ensures forall i :: 0 <= i < |parts| ==> '.' !in parts[i]
    decreases |s|
  {
    if s == [] then [""]
    else
      var rest := Split(s[1..]);
      if s[0] == '.' then [""] + rest else [[s[0]] + rest[0]] + rest[1..]
  }

  /** `parts.join('.')`. */
  function Join(parts: seq<string>): string
    requires |parts| >= 1
    decreases |parts|
  {
    if |parts| == 1 then parts[0] else parts[0] + "." + Join(parts[1..])
  }

  /** Splitting loses nothing: joining the pieces with dots gives the key back. */
  lemma {:induction false} JoinSplit(s: string)
    ensures Join(Split(s)) == s
    decreases |s|
  {
    if s != [] {
      var rest := Split(s[1..]);
      JoinSplit(s[1..]);
      if s[0] == '.' {
        assert Split(s) == [""] + rest && ([""] + rest)[1..] == rest;
        assert s == "" + "." + s[1..];
      } else if |rest| == 1 {
        assert Split(s) == [[s[0]] + rest[0]];
      } else {
        assert Split(s) == [[s[0]] + rest[0]] + rest[1..];
        assert ([[s[0]] + rest[0]] + rest[1..])[1..] == rest[1..];
        assert Join(rest) == rest[0] + "." + Join(rest[1..]);
        assert s == [s[0]] + s[1..];
      }
    }
  }

  /** A dot-free piece followed by a dot starts a new piece. */
  lemma {:induction false} SplitPiece(a: string, t: string)
    requires '.' !in a
    ensures Split(a + "." + t) == [a] + Split(t)
    ensures Split(a) == [a]
    decreases |a|
  {
    if a == [] {
      assert a + "." + t == "." + t && ("." + t)[1..] == t;
    } else {
      SplitPiece(a[1..], t);
      assert (a + "." + t)[0] == a[0] && (a + "." + t)[1..] == a[1..] + "." + t;
      assert [a[0]] + a[1..] == a;
    }
  }

  /** Splitting is the inverse of joining dot-free pieces. */
  lemma {:induction false} SplitJoin(parts: seq<string>)
    requires |parts| >= 1 && forall i :: 0 <= i < |parts| ==> '.' !in parts[i]
    ensures Split(Join(parts)) == parts
    decreases |parts|
  {
    SplitPiece(parts[0], "");
    if |parts| > 1 {
      SplitJoin(parts[1..]);
      SplitPiece(parts[0], Join(parts[1..]));
      assert [parts[0]] + parts[1..] == parts;
    }
  }
}
