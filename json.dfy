/** The JSON document the editor keeps in its one data file, and the
    path-addressed operations on it: looking a node up, creating the missing
    levels of a path, and setting or removing one key of a mapping. */
module JsonTree {
  import opened Wrappers

  /** A value as `json.load` hands it back. Mappings are what paths walk
      through; the editor itself only writes strings and lists of strings;
      `Atom` stands for a number, `true`, `false` or `null` found in the file,
      kept as its literal text. */
  datatype Json =
    | Obj(fields: map<string, Json>)
    | Str(text: string)
    | Arr(items: seq<Json>)
    | Atom(literal: string)

  /** The `{}` that a missing path level is bound to. */
  const Empty: Json := Obj(map[])

  /** The value reached from `j` by following the keys of `path`, if every
      key is there and every value passed through is a mapping. */
  function Lookup(j: Json, path: seq<string>): Option<Json>
    decreases path
  {
    if path == [] then Some(j)
    else if j.Obj? && path[0] in j.fields then Lookup(j.fields[path[0]], path[1..])
    else None
  }

  /** A mapping is found at `path`. */
  predicate IsMappingAt(j: Json, path: seq<string>) {
    Lookup(j, path).Some? && Lookup(j, path).value.Obj?
  }

  /** A lookup that gets to the end of a path went through a mapping at
      every proper prefix of it. */
  lemma {:induction false} LookupPrefix(j: Json, path: seq<string>, i: nat)
    requires Lookup(j, path).Some?
    requires i < |path|
    ensures IsMappingAt(j, path[..i])
    decreases path
  {
    if i > 0 {
      LookupPrefix(j.fields[path[0]], path[1..], i - 1);
      assert path[..i][0] == path[0] && path[..i][1..] == path[1..][..i - 1];
    }
  }

  /** Every value met strictly before the end of `path` that already exists
      is a mapping: what the walk of `get_target` needs in order not to fail. */
  predicate Walkable(j: Json, path: seq<string>)
    decreases path
  {
    path == [] || (j.Obj? && (path[0] in j.fields ==> Walkable(j.fields[path[0]], path[1..])))
  }

  /** Every value that already exists along `path`, the root and the end
      included, is a mapping: what an insert at `path` needs. */
  predicate MappingsAlong(j: Json, path: seq<string>)
    decreases path
  {
    j.Obj? && (path != [] && path[0] in j.fields ==> MappingsAlong(j.fields[path[0]], path[1..]))
  }

  /** The document after `get_target(j, path)`: every missing key along the
      path bound to a fresh `{}`. `None` when a string, list or atom stands
      where the walk has to go on, where Python raises `TypeError`. */
  function Vivify(j: Json, path: seq<string>): (r: Option<Json>)
    ensures r.Some? ==> Lookup(r.value, path).Some?
    decreases path
  {
    if path == [] then Some(j)
    else if !j.Obj? then None
    else
      var child := if path[0] in j.fields then j.fields[path[0]] else Empty;
      match Vivify(child, path[1..])
      case None => None
      case Some(c) => Some(Obj(j.fields[path[0] := c]))
  }

  /** `j` with `key` bound to `v` in the mapping at `path`. */
  function Put(j: Json, path: seq<string>, key: string, v: Json): (r: Json)
    requires IsMappingAt(j, path)
    ensures IsMappingAt(r, path)
    ensures Lookup(r, path + [key]) == Some(v)
    decreases path
  {
    if path == [] then Obj(j.fields[key := v])
    else
      var r := Obj(j.fields[path[0] := Put(j.fields[path[0]], path[1..], key, v)]);
      assert (path + [key])[1..] == path[1..] + [key];
      r
  }

  /** `j` with `key` unbound in the mapping at `path`. */
  function Remove(j: Json, path: seq<string>, key: string): (r: Json)
    requires IsMappingAt(j, path)
    ensures IsMappingAt(r, path)
    ensures Lookup(r, path + [key]) == None
    decreases path
  {
    if path == [] then Obj(j.fields - {key})
    else
      var r := Obj(j.fields[path[0] := Remove(j.fields[path[0]], path[1..], key)]);
      assert (path + [key])[1..] == path[1..] + [key];
      r
  }

  /** Python's substring test `k in s`. */
  function IsInfix(k: string, s: string): (b: bool)
    ensures b <==> exists i :: 0 <= i <= |s| && k <= s[i..]
  {
    if k <= s then assert s[0..] == s; true
    else if s == [] then false
    else
      var b := IsInfix(k, s[1..]);
      assert forall i :: 1 <= i <= |s| ==> s[1..][i - 1..] == s[i..];
      assert b ==> exists i :: 0 <= i <= |s| && k <= s[i..] by {
        if b {
          var i :| 0 <= i <= |s[1..]| && k <= s[1..][i..];
          assert s[1..][i..] == s[i + 1..];
        }
      }
      b
  }

  /** Python's `key in target`: key membership for a mapping, a substring
      test for a string, element membership for a list; `None` for a number,
      boolean or null, where `in` raises `TypeError`. */
  function Membership(target: Json, key: string): (r: Option<bool>)
    ensures r.None? <==> target.Atom?
    ensures target.Obj? ==> r == Some(key in target.fields)
    ensures target.Str? ==> r == Some(exists i :: 0 <= i <= |target.text| && key <= target.text[i..])
    ensures target.Arr? ==> r == Some(exists i :: 0 <= i < |target.items| && target.items[i] == Str(key))
  {
    match target
    case Obj(m) => Some(key in m)
    case Str(s) => Some(IsInfix(key, s))
    case Arr(items) => Some(Str(key) in items)
    case Atom(_) => None
  }

  // ----- the walk of get_target -----

  /** The walk succeeds exactly when the existing values it passes through
      are mappings. */
  lemma {:induction false} VivifyWalkable(j: Json, path: seq<string>)
    ensures Vivify(j, path).Some? <==> Walkable(j, path)
    decreases path
  {
    if path != [] && j.Obj? {
      if path[0] in j.fields {
        VivifyWalkable(j.fields[path[0]], path[1..]);
      } else {
        VivifyWalkable(Empty, path[1..]);
        EmptyWalkable(path[1..]);
      }
    }
  }

  /** A walk that fails never got past a missing key: once it binds a `{}`,
      every level below is new and the rest of the walk cannot fail. So the
      part of a failing walk that succeeds has changed nothing. */
  lemma {:induction false} FailKeepsRoot(j: Json, path: seq<string>, i: nat)
    requires Vivify(j, path).None?
    requires i < |path|
    requires Vivify(j, path[..i]).Some?
    ensures Vivify(j, path[..i]) == Some(j)
    decreases path
  {
    if i > 0 {
      assert path[..i][0] == path[0] && path[..i][1..] == path[1..][..i - 1];
      if path[0] !in j.fields {
        EmptyWalkable(path[1..]);
        VivifyWalkable(Empty, path[1..]);
        assert false;
      }
      var child := j.fields[path[0]];
      FailKeepsRoot(child, path[1..], i - 1);
      assert j.fields[path[0] := child] == j.fields;
    }
  }

  lemma EmptyWalkable(path: seq<string>)
    ensures Walkable(Empty, path)
    ensures MappingsAlong(Empty, path)
  {
  }

  /** An insert needs the walk to succeed and its end to be a mapping. */
  lemma {:induction false} MappingsAlongIff(j: Json, path: seq<string>)
    ensures MappingsAlong(j, path) <==> Walkable(j, path) && (Lookup(j, path).Some? ==> Lookup(j, path).value.Obj?)
    decreases path
  {
    if path != [] && j.Obj? && path[0] in j.fields {
      MappingsAlongIff(j.fields[path[0]], path[1..]);
    }
  }

  /** The node the walk ends at is the one already there, or a new `{}`. */
  lemma {:induction false} VivifyTarget(j: Json, path: seq<string>)
    requires Vivify(j, path).Some?
    ensures Lookup(Vivify(j, path).value, path) == Some(if Lookup(j, path).Some? then Lookup(j, path).value else Empty)
    decreases path
  {
    if path != [] {
      if path[0] in j.fields {
        VivifyTarget(j.fields[path[0]], path[1..]);
      } else {
        VivifyTarget(Empty, path[1..]);
      }
    }
  }

  /** Off the path nothing changes: a lookup along any path that is not a
      prefix of `path` sees the same value before and after the walk. */
  lemma {:induction false} VivifyFrame(j: Json, path: seq<string>, q: seq<string>)
    requires Vivify(j, path).Some?
    requires !(q <= path)
    ensures Lookup(Vivify(j, path).value, q) == Lookup(j, q)
    decreases path
  {
    if path != [] && q[0] == path[0] {
      assert !(q[1..] <= path[1..]);
      var child := if path[0] in j.fields then j.fields[path[0]] else Empty;
      VivifyFrame(child, path[1..], q[1..]);
    }
  }

  /** Along the path, every proper prefix reaches a mapping afterwards whose
      keys are the old ones (none if the level was missing) plus the next
      segment; a value already there was a mapping. */
  lemma {:induction false} VivifyAlongPath(j: Json, path: seq<string>, i: nat)
    requires Vivify(j, path).Some?
    requires i < |path|
    ensures IsMappingAt(Vivify(j, path).value, path[..i])
    ensures Lookup(j, path[..i]).Some? ==> Lookup(j, path[..i]).value.Obj?
    ensures Lookup(Vivify(j, path).value, path[..i]).value.fields.Keys
            == (if Lookup(j, path[..i]).Some? then Lookup(j, path[..i]).value.fields.Keys else {}) + {path[i]}
    decreases path
  {
    if i > 0 {
      var child := if path[0] in j.fields then j.fields[path[0]] else Empty;
      VivifyAlongPath(child, path[1..], i - 1);
      assert path[..i][0] == path[0] && path[..i][1..] == path[1..][..i - 1];
      if path[0] !in j.fields && i > 1 {
        assert Lookup(Empty, path[1..][..i - 1]) == None;
      }
    }
  }

  /** The walk never removes or changes an existing binding: a value that was
      there is still there, identical if it is not a mapping, with at least
      its old keys if it is. */
  lemma VivifyKeepsBindings(j: Json, path: seq<string>, q: seq<string>)
    requires Vivify(j, path).Some?
    requires Lookup(j, q).Some?
    ensures Lookup(Vivify(j, path).value, q).Some?
    ensures var before, after := Lookup(j, q).value, Lookup(Vivify(j, path).value, q).value;
            if before.Obj? then after.Obj? && before.fields.Keys <= after.fields.Keys else after == before
  {
    if !(q <= path) {
      VivifyFrame(j, path, q);
    } else if q == path {
      VivifyTarget(j, path);
    } else {
      assert q == path[..|q|];
      VivifyAlongPath(j, path, |q|);
    }
  }

  /** A second walk along the same path changes nothing. */
  lemma {:induction false} VivifyIdempotent(j: Json, path: seq<string>)
    requires Vivify(j, path).Some?
    ensures Vivify(Vivify(j, path).value, path) == Vivify(j, path)
    decreases path
  {
    if path != [] {
      var child := if path[0] in j.fields then j.fields[path[0]] else Empty;
      VivifyIdempotent(child, path[1..]);
      var c := Vivify(child, path[1..]).value;
      assert j.fields[path[0] := c][path[0] := c] == j.fields[path[0] := c];
    }
  }

  /** A walk along a path that exists in full changes nothing. */
  lemma {:induction false} VivifyExisting(j: Json, path: seq<string>)
    requires Lookup(j, path).Some?
    ensures Vivify(j, path) == Some(j)
    decreases path
  {
    if path != [] {
      VivifyExisting(j.fields[path[0]], path[1..]);
      assert j.fields[path[0] := j.fields[path[0]]] == j.fields;
    }
  }

  /** One more step of the walk: from the node reached so far, bind `s` to
      `{}` if it is missing, or fail if the node is not a mapping. */
  lemma {:induction false} VivifyStep(j: Json, path: seq<string>, s: string)
    requires Vivify(j, path).Some?
    ensures var d := Vivify(j, path).value;
            var node := Lookup(d, path).value;
            Vivify(j, path + [s]) ==
              if !node.Obj? then None
              else if s in node.fields then Some(d)
              else Some(Put(d, path, s, Empty))
    decreases path
  {
    if path == [] {
      assert path + [s] == [s];
      if j.Obj? && s in j.fields {
        assert j.fields[s := j.fields[s]] == j.fields;
      }
    } else {
      var child := if path[0] in j.fields then j.fields[path[0]] else Empty;
      assert (path + [s])[0] == path[0] && (path + [s])[1..] == path[1..] + [s];
      VivifyStep(child, path[1..], s);
      var c := Vivify(child, path[1..]).value;
      var node := Lookup(c, path[1..]).value;
      if node.Obj? && s in node.fields {
      } else if node.Obj? {
        var m := j.fields;
        assert m[path[0] := c][path[0] := Put(c, path[1..], s, Empty)] == m[path[0] := Put(c, path[1..], s, Empty)];
      }
    }
  }

  /** A walk that meets a non-mapping before its last segment fails. */
  lemma {:induction false} VivifyStuck(j: Json, path: seq<string>, rest: seq<string>)
    requires Vivify(j, path).Some?
    requires !Lookup(Vivify(j, path).value, path).value.Obj?
    requires rest != []
    ensures Vivify(j, path + rest) == None
    decreases path
  {
    if path == [] {
      assert path + rest == rest;
    } else {
      var child := if path[0] in j.fields then j.fields[path[0]] else Empty;
      assert (path + rest)[0] == path[0] && (path + rest)[1..] == path[1..] + rest;
      VivifyStuck(child, path[1..], rest);
    }
  }

  // ----- setting and removing a key -----

  /** Setting a key changes nothing off the path to it: lookups along a path
      that is neither a prefix of `path` nor inside `path + [key]` see the
      same value, so the other keys of the target keep their values. */
  lemma {:induction false} PutFrame(j: Json, path: seq<string>, key: string, v: Json, q: seq<string>)
    requires IsMappingAt(j, path)
    requires !(q <= path) && !(path + [key] <= q)
    ensures Lookup(Put(j, path, key, v), q) == Lookup(j, q)
    decreases path
  {
    if path == [] {
      assert q[0] != key;
    } else if q[0] == path[0] {
      assert (path + [key]) == [path[0]] + (path[1..] + [key]);
      assert !(q[1..] <= path[1..]);
      assert !(path[1..] + [key] <= q[1..]);
      PutFrame(j.fields[path[0]], path[1..], key, v, q[1..]);
    }
  }

  /** Removing a key changes nothing off the path to it. */
  lemma {:induction false} RemoveFrame(j: Json, path: seq<string>, key: string, q: seq<string>)
    requires IsMappingAt(j, path)
    requires !(q <= path) && !(path + [key] <= q)
    ensures Lookup(Remove(j, path, key), q) == Lookup(j, q)
    decreases path
  {
    if path == [] {
      assert q[0] != key;
    } else if q[0] == path[0] {
      assert (path + [key]) == [path[0]] + (path[1..] + [key]);
      assert !(q[1..] <= path[1..]);
      assert !(path[1..] + [key] <= q[1..]);
      RemoveFrame(j.fields[path[0]], path[1..], key, q[1..]);
    }
  }

  /** Setting the same key twice leaves only the second value. */
  lemma {:induction false} PutPut(j: Json, path: seq<string>, key: string, v1: Json, v2: Json)
    requires IsMappingAt(j, path)
    ensures Put(Put(j, path, key, v1), path, key, v2) == Put(j, path, key, v2)
    decreases path
  {
    if path == [] {
      assert j.fields[key := v1][key := v2] == j.fields[key := v2];
    } else {
      PutPut(j.fields[path[0]], path[1..], key, v1, v2);
      var m := j.fields;
      var p0 := path[0];
      assert m[p0 := Put(m[p0], path[1..], key, v1)][p0 := Put(Put(m[p0], path[1..], key, v1), path[1..], key, v2)]
          == m[p0 := Put(m[p0], path[1..], key, v2)];
    }
  }
}
