/** The bodies of the `/insert` and `/delete` routes, without Flask and the
    HTML: read the form fields, load the document, walk to the target,
    change it, save it, and answer with the document to display. */
module Routes {
  import opened Wrappers
  import opened Text
  import opened JsonTree
  import opened Form
  import Editor

  /** What a request ends in. */
  datatype Reply =
    | EmptyKey
      // "Key 不能為空" with status 400, before the file is read
    | TypeError
      // an exception escapes the route: status 500, nothing saved
    | Updated(doc: Json)
      // insert: `doc` is saved and shown
    | Deleted(doc: Json, path: string, key: string)
      // delete found the key: `doc` is saved and shown with "已刪除 path/key"
    | NotFound(doc: Json, path: string, key: string)
      // delete did not: nothing saved, the in-memory `doc` shown with "找不到 path/key"

  /** The document `save_data` writes, if the request gets that far. */
  function Saved(r: Reply): (saved: Option<Json>)
    ensures saved.Some? <==> r.Updated? || r.Deleted?
    ensures saved.Some? ==> saved.value == r.doc
  {
    match r
    case Updated(doc) => Some(doc)
    case Deleted(doc, _, _) => Some(doc)
    case _ => None
  }

  /** The insert route as a function of the file's content and the three
      fields. An all-whitespace key is rejected whatever the document, and
      insert never answers with a delete outcome. */
  function InsertReply(disk: Json, pathField: string, keyField: string, valueField: string): (r: Reply)
    ensures r == EmptyKey <==> forall k :: 0 <= k < |keyField| ==> IsSpace(keyField[k])
    ensures r.EmptyKey? || r.TypeError? || r.Updated?
  {
    match KeyOf(keyField)
    case None => EmptyKey
    case Some(key) => InsertInto(disk, Segments(Strip(pathField)), key, ParseValue(valueField))
  }

  /** Insert once the fields are read: walk `segs`, then bind `key` to `v`
      in the node reached. */
  function InsertInto(disk: Json, segs: seq<string>, key: string, v: Json): (r: Reply)
    ensures r.TypeError? || r.Updated?
  {
    match Vivify(disk, segs)
    case None => TypeError
    case Some(data) =>
      if IsMappingAt(data, segs) then Updated(Put(data, segs, key, v)) else TypeError
  }

  /** The delete route as a function of the file's content and the two
      fields. An all-whitespace key is rejected whatever the document, and
      delete never answers with the insert outcome. */
  function DeleteReply(disk: Json, pathField: string, keyField: string): (r: Reply)
    ensures r == EmptyKey <==> forall k :: 0 <= k < |keyField| ==> IsSpace(keyField[k])
    ensures !r.Updated?
  {
    match KeyOf(keyField)
    case None => EmptyKey
    case Some(key) =>
      var path := Strip(pathField);
      DeleteFrom(disk, path, Segments(path), key)
  }

  /** Delete once the fields are read: walk `segs`, test `key in target`,
      then delete it. `path` is the stripped path field, kept for the
      message. */
  function DeleteFrom(disk: Json, path: string, segs: seq<string>, key: string): (r: Reply)
    ensures !r.Updated? && !r.EmptyKey?
  {
    match Vivify(disk, segs)
    case None => TypeError
    case Some(data) =>
      var target := Lookup(data, segs).value;
      match Membership(target, key)
      case None => TypeError
      case Some(false) => NotFound(data, path, key)
      case Some(true) => if target.Obj? then Deleted(Remove(data, segs, key), path, key) else TypeError
  }

  /** The `/insert` route body, step by step on the in-memory document. */
  method Insert(disk: Json, pathField: string, keyField: string, valueField: string) returns (r: Reply)
    ensures r == InsertReply(disk, pathField, keyField, valueField)
  {
    var path := Strip(pathField);
    var key := Strip(keyField);
    if key == [] {
      return EmptyKey;
    }
    assert InsertReply(disk, pathField, keyField, valueField)
           == InsertInto(disk, Segments(path), key, ParseValue(valueField));
    var values := ParseValue(valueField);
    var data := new Editor.Document(disk);
    var segs := Segments(path);
    var ok := data.GetTarget(segs);
    if !ok {
      return TypeError;
    }
    ok := data.Assign(segs, key, values);
    if !ok {
      return TypeError;
    }
    r := Updated(data.root);
  }

  /** The `/delete` route body, step by step on the in-memory document. */
  method Delete(disk: Json, pathField: string, keyField: string) returns (r: Reply)
    ensures r == DeleteReply(disk, pathField, keyField)
  {
    var path := Strip(pathField);
    var key := Strip(keyField);
    if key == [] {
      return EmptyKey;
    }
    assert DeleteReply(disk, pathField, keyField) == DeleteFrom(disk, path, Segments(path), key);
    var data := new Editor.Document(disk);
    var segs := Segments(path);
    var ok := data.GetTarget(segs);
    if !ok {
      return TypeError;
    }
    var target := Lookup(data.root, segs).value;
    match Membership(target, key)
    case None =>
      r := TypeError;
    case Some(false) =>
      r := NotFound(data.root, path, key);
    case Some(true) =>
      ok := data.Delete(segs, key);
      r := if ok then Deleted(data.root, path, key) else TypeError;
  }

  // ----- insert -----

  /** Insert succeeds exactly when every value that already exists along
      the path, root and target included, is a mapping; otherwise it fails
      and nothing is saved. */
  lemma InsertSucceedsIff(disk: Json, segs: seq<string>, key: string, v: Json)
    ensures InsertInto(disk, segs, key, v).Updated? <==> MappingsAlong(disk, segs)
    ensures !MappingsAlong(disk, segs) ==> Saved(InsertInto(disk, segs, key, v)) == None
  {
    VivifyWalkable(disk, segs);
    MappingsAlongIff(disk, segs);
    if Vivify(disk, segs).Some? {
      VivifyTarget(disk, segs);
    }
  }

  /** After an insert, path/key holds the value; every prefix of the path
      is a mapping; and any lookup that neither leads to the target nor goes
      through path/key, in particular every other key of the target, sees
      what the file held before. */
  lemma InsertEffect(disk: Json, segs: seq<string>, key: string, v: Json)
    requires InsertInto(disk, segs, key, v).Updated?
    ensures var doc := InsertInto(disk, segs, key, v).doc;
            && Saved(InsertInto(disk, segs, key, v)) == Some(doc)
            && Lookup(doc, segs + [key]) == Some(v)
            && (forall i :: 0 <= i <= |segs| ==> IsMappingAt(doc, segs[..i]))
            && (forall k :: k != key ==> Lookup(doc, segs + [k]) == Lookup(disk, segs + [k]))
            && (forall q :: !(q <= segs) && !(segs + [key] <= q) ==> Lookup(doc, q) == Lookup(disk, q))
  {
    var data := Vivify(disk, segs).value;
    var doc := Put(data, segs, key, v);
    forall i | 0 <= i <= |segs| ensures IsMappingAt(doc, segs[..i]) {
      if i < |segs| {
        LookupPrefix(doc, segs + [key], i);
        assert (segs + [key])[..i] == segs[..i];
      } else {
        assert segs[..i] == segs;
      }
    }
    forall q | !(q <= segs) && !(segs + [key] <= q) ensures Lookup(doc, q) == Lookup(disk, q) {
      VivifyFrame(disk, segs, q);
      PutFrame(data, segs, key, v, q);
    }
    forall k | k != key ensures Lookup(doc, segs + [k]) == Lookup(disk, segs + [k]) {
      OtherKey(segs, key, k);
      VivifyFrame(disk, segs, segs + [k]);
      PutFrame(data, segs, key, v, segs + [k]);
    }
  }

  /** Inserting twice at the same path and key is inserting once with the
      second value: no merge, no trace of the first. */
  lemma InsertTwice(disk: Json, segs: seq<string>, key: string, first: Json, second: Json)
    requires InsertInto(disk, segs, key, first).Updated?
    ensures InsertInto(InsertInto(disk, segs, key, first).doc, segs, key, second)
            == InsertInto(disk, segs, key, second)
  {
    var data := Vivify(disk, segs).value;
    var once := Put(data, segs, key, first);
    VivifyExisting(once, segs);
    PutPut(data, segs, key, first, second);
  }

  /** Inserting `"v"` at `"p/q"` under `"k"` into an empty file gives
      `{"p": {"q": {"k": "v"}}}`. */
  lemma InsertExample()
    ensures InsertReply(Empty, "p/q", "k", "v")
            == Updated(Obj(map["p" := Obj(map["q" := Obj(map["k" := Str("v")])])]))
  {
    ExamplePath("p/q", ["p", "q"]);
    ExampleWord("k");
    ExampleWord("v");
    InsertFields(Empty, "p/q", "k", "v", ["p", "q"], "k", Str("v"));
    NestedInsert(["p", "q"], Str("v"));
  }

  lemma InsertFields(disk: Json, pathField: string, keyField: string, valueField: string,
                     segs: seq<string>, key: string, v: Json)
    requires Segments(Strip(pathField)) == segs
    requires KeyOf(keyField) == Some(key)
    requires ParseValue(valueField) == v
    ensures InsertReply(disk, pathField, keyField, valueField) == InsertInto(disk, segs, key, v)
  {
  }

  lemma ExamplePath(pathField: string, segs: seq<string>)
    requires pathField == "p/q" && segs == ["p", "q"]
    ensures Segments(Strip(pathField)) == segs
  {
    assert Join(segs, '/') == pathField;
    PathFieldJoin(segs);
  }

  lemma ExampleWord(w: string)
    requires w == "k" || w == "v"
    ensures KeyOf(w) == Some(w) && ParseValue(w) == Str(w)
  {
    StripClean(w);
    assert ',' !in w;
  }

  lemma NestedInsert(segs: seq<string>, v: Json)
    requires segs == ["p", "q"]
    ensures InsertInto(Empty, segs, "k", v) == Updated(Obj(map["p" := Obj(map["q" := Obj(map["k" := v])])]))
  {
    assert segs[1..] == ["q"] && segs[1..][1..] == [];
    var inner := Obj(map["q" := Empty]);
    assert Vivify(Empty, ["q"]) == Some(inner);
    var data := Obj(map["p" := inner]);
    assert Vivify(Empty, segs) == Some(data);
    assert Put(inner, ["q"], "k", v) == Obj(map["q" := Obj(map["k" := v])]);
  }

  // ----- delete -----

  /** Delete removes something exactly when the path already leads to a
      mapping that holds the key. */
  lemma DeleteFoundIff(disk: Json, path: string, segs: seq<string>, key: string)
    ensures DeleteFrom(disk, path, segs, key).Deleted?
            <==> IsMappingAt(disk, segs) && key in Lookup(disk, segs).value.fields
  {
    if Lookup(disk, segs).Some? {
      VivifyExisting(disk, segs);
    }
    if Vivify(disk, segs).Some? {
      VivifyTarget(disk, segs);
    }
  }

  /** A delete that finds the key saves a document in which path/key is
      gone and every lookup that neither leads to the target nor goes through
      path/key, in particular every sibling key, is as before. */
  lemma DeleteEffect(disk: Json, path: string, segs: seq<string>, key: string)
    requires DeleteFrom(disk, path, segs, key).Deleted?
    ensures var r := DeleteFrom(disk, path, segs, key);
            && Saved(r) == Some(r.doc)
            && r.path == path && r.key == key
            && Lookup(disk, segs + [key]).Some?
            && Lookup(r.doc, segs + [key]) == None
            && (forall k :: k != key ==> Lookup(r.doc, segs + [k]) == Lookup(disk, segs + [k]))
            && (forall q :: !(q <= segs) && !(segs + [key] <= q) ==> Lookup(r.doc, q) == Lookup(disk, q))
  {
    DeleteFoundIff(disk, path, segs, key);
    VivifyExisting(disk, segs);
    LookupAfter(disk, segs, key);
    var doc := Remove(disk, segs, key);
    forall q | !(q <= segs) && !(segs + [key] <= q) ensures Lookup(doc, q) == Lookup(disk, q) {
      RemoveFrame(disk, segs, key, q);
    }
    forall k | k != key ensures Lookup(doc, segs + [k]) == Lookup(disk, segs + [k]) {
      OtherKey(segs, key, k);
      RemoveFrame(disk, segs, key, segs + [k]);
    }
  }

  /** A delete that does not find the key saves nothing. What it shows is
      the loaded document with the missing levels of the path created: no
      binding removed, nothing off the path touched, and the key was not
      there to begin with. */
  lemma DeleteNotFound(disk: Json, path: string, segs: seq<string>, key: string)
    requires DeleteFrom(disk, path, segs, key).NotFound?
    ensures var r := DeleteFrom(disk, path, segs, key);
            && Saved(r) == None
            && r.path == path && r.key == key
            && Lookup(disk, segs + [key]) == None
            && Lookup(r.doc, segs).Some?
            && (forall q :: Lookup(disk, q).Some? ==> Lookup(r.doc, q).Some?)
            && (forall q :: !(q <= segs) ==> Lookup(r.doc, q) == Lookup(disk, q))
  {
    var doc := Vivify(disk, segs).value;
    VivifyTarget(disk, segs);
    LookupAfter(disk, segs, key);
    forall q | Lookup(disk, q).Some? ensures Lookup(doc, q).Some? {
      VivifyKeepsBindings(disk, segs, q);
    }
    forall q | !(q <= segs) ensures Lookup(doc, q) == Lookup(disk, q) {
      VivifyFrame(disk, segs, q);
    }
  }

  /** A path whose existing values are all mappings and a key that is not
      there: delete answers not-found. */
  lemma DeleteMissingKey(disk: Json, path: string, segs: seq<string>, key: string)
    requires MappingsAlong(disk, segs)
    requires Lookup(disk, segs + [key]) == None
    ensures DeleteFrom(disk, path, segs, key).NotFound?
  {
    MappingsAlongIff(disk, segs);
    VivifyWalkable(disk, segs);
    VivifyTarget(disk, segs);
    LookupAfter(disk, segs, key);
  }

  /** A path that leads to a string, list or atom: the file is never
      changed. A string whose text contains the key, a list holding the key
      as a string, and an atom all make the route raise; anything else is
      answered not-found. */
  lemma DeleteNonMapping(disk: Json, path: string, segs: seq<string>, key: string, t: Json)
    requires Lookup(disk, segs) == Some(t) && !t.Obj?
    ensures DeleteFrom(disk, path, segs, key)
            == if Membership(t, key) == Some(false) then NotFound(disk, path, key) else TypeError
  {
    VivifyExisting(disk, segs);
  }

  /** `path + [k]` neither leads to nor passes through `path + [key]` when
      `k != key`. */
  lemma OtherKey(path: seq<string>, key: string, k: string)
    requires k != key
    ensures !(path + [k] <= path) && !(path + [key] <= path + [k])
  {
    assert (path + [k])[|path|] == k;
    assert (path + [key])[|path|] == key;
  }

  /** One key past a path: found when the path leads to a mapping holding it. */
  lemma {:induction false} LookupAfter(j: Json, path: seq<string>, key: string)
    ensures Lookup(j, path + [key]).Some? <==> IsMappingAt(j, path) && key in Lookup(j, path).value.fields
    decreases path
  {
    if path == [] {
      assert path + [key] == [key];
    } else {
      assert (path + [key])[0] == path[0] && (path + [key])[1..] == path[1..] + [key];
      if j.Obj? && path[0] in j.fields {
        LookupAfter(j.fields[path[0]], path[1..], key);
      }
    }
  }
}
