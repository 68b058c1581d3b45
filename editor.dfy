/** The in-memory document of one request and the steps that change it in
    place: the walk of `get_target`, `target[key] = values` and
    `del target[key]`. */
module Editor {
  import opened Wrappers
  import opened JsonTree

  /** The tree `load_data()` returned. A freshly loaded tree shares no node,
      so a Python reference into it is named here by the path that reaches
      the node, and every change goes through `root`. */
  class Document {
    var root: Json

    constructor (loaded: Json)
      ensures root == loaded
    {
      root := loaded;
    }

    /** `get_target(data, path_list)`: walk `path` from the root, binding
        every missing key to `{}` on the way. The node the loop calls
        `current` is the one at `path[..i]`. `ok` is false where Python
        raises `TypeError`, because the walk met a string, list or atom
        with segments left. A failing walk has created nothing: a level it
        creates is an empty mapping, and the walk cannot fail below one. */
    method GetTarget(path: seq<string>) returns (ok: bool)
      modifies this
      ensures ok <==> Vivify(old(root), path).Some?
      ensures ok ==> Vivify(old(root), path) == Some(root) && Lookup(root, path).Some?
      ensures !ok ==> root == old(root)
      ensures path == [] ==> ok && root == old(root)
    {
      var i := 0;
      while i < |path|
        invariant 0 <= i <= |path|
        invariant Vivify(old(root), path[..i]) == Some(root)
      {
        var current := Lookup(root, path[..i]).value;
        if !current.Obj? {
          VivifyStuck(old(root), path[..i], path[i..]);
          assert path[..i] + path[i..] == path;
          FailKeepsRoot(old(root), path, i);
          return false;
        }
        VivifyStep(old(root), path[..i], path[i]);
        if path[i] !in current.fields {
          root := Put(root, path[..i], path[i], Empty);
        }
        assert path[..i] + [path[i]] == path[..i + 1];
        i := i + 1;
      }
      assert path[..i] == path;
      ok := true;
    }

    /** `target[key] = values` for the node at `path`: overwrites whatever
        `key` held. `ok` is false, and nothing changes, where Python raises
        `TypeError` because the node is not a mapping. */
    method Assign(path: seq<string>, key: string, v: Json) returns (ok: bool)
      requires Lookup(root, path).Some?
      modifies this
      ensures ok <==> IsMappingAt(old(root), path)
      ensures root == if ok then Put(old(root), path, key, v) else old(root)
    {
      var target := Lookup(root, path).value;
      ok := target.Obj?;
      if ok {
        root := Put(root, path, key, v);
      }
    }

    /** `del target[key]` for the node at `path`. `ok` is false, and nothing
        changes, where Python raises: `TypeError` for a node that is not a
        mapping, `KeyError` for a mapping without `key`. */
    method Delete(path: seq<string>, key: string) returns (ok: bool)
      requires Lookup(root, path).Some?
      modifies this
      ensures ok <==> IsMappingAt(old(root), path) && key in Lookup(old(root), path).value.fields
      ensures root == if ok then Remove(old(root), path, key) else old(root)
    {
      var target := Lookup(root, path).value;
      ok := target.Obj? && key in target.fields;
      if ok {
        root := Remove(root, path, key);
      }
    }
  }
}
