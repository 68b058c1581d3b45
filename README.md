# A model of the nested JSON editor

The editor is a small web application written in Python. It keeps one JSON
document in a file, `data.json`. Two form routes change that document by path:

- `/insert` takes a path such as `chatgpt/sub1`, a key and a value. It
  creates the missing mappings along the path and binds the key to the value
  in the mapping it reaches. A value that contains a comma becomes a list of
  its stripped pieces.
- `/delete` takes a path and a key. It walks the path the same way and
  removes the key if it is there.

Both routes reject an all-whitespace key with status 400. They save the
document only after a change.

The Dafny model has five modules:

- `Text` covers Python's `str.strip` and `str.split` on one character. It
  also defines `Join`, the inverse of `Split`.
- `Form` covers how the routes read their three form fields. The path field
  is stripped and then split into non-empty segments. The key field is
  stripped and checked. The value field becomes a string or a list of
  strings.
- `JsonTree` holds the document as a value, with path lookup and
  `get_target`'s walk as a function (`Vivify`). It also has setting or
  removing one key of the mapping at a path, and Python's `in` on each kind
  of JSON value.
- `Editor` holds the in-memory document as a class, `Document`, whose
  methods change it in place. `GetTarget` is the loop of `get_target`.
  `Assign` is `target[key] = values`. `Delete` is `del target[key]`.
- `Routes` covers the two route bodies:
  - `Insert` and `Delete` are methods proved equal to the functions
    `InsertReply` and `DeleteReply`.
  - Those two functions say what the response is and which document, if
    any, is saved.
  - The lemmas about those functions state what an insert or delete does to
    the document.

Two behaviours of the code are worth stating plainly, because a reader might
expect otherwise:

- A value without a comma is still stripped: the whole value field is
  stripped at app.py:74, before the comma test at app.py:80. So `" x "` is
  stored as `"x"` (`Form.ParseValueScalar`).
- A value on the path that is not a mapping is never replaced by `{}`:
  - A string, list, number, boolean or null with path segments still to walk
    makes `get_target` (app.py:29-31) raise `TypeError`. So does one at the
    end of the path on insert (app.py:90).
  - The route then fails and nothing is saved (`Routes.InsertSucceedsIff`).

## Model

| member | source | states |
|---|---|---|
| Text.TrimStart | app.py:72 | the result is no longer than the input and does not start with whitespace |
| Text.TrimEnd | app.py:72 | the result is no longer than the input and does not end with whitespace |
| Text.TrimStartDropped | app.py:72 | the left trim keeps a suffix, and every character it drops is whitespace |
| Text.TrimEndDropped | app.py:72 | the right trim keeps a prefix, and every character it drops is whitespace |
| Text.Strip | app.py:72-74 | `str.strip()`: the result neither starts nor ends with whitespace |
| Text.StripEmpty | app.py:76 | the stripped field is empty exactly when every character is whitespace |
| Text.TrimStartSpaces | app.py:72 | leading whitespace has no effect on the left trim |
| Text.TrimEndSpaces | app.py:72 | trailing whitespace has no effect on the right trim |
| Text.StripSlice | app.py:72-74 | the stripped string is one contiguous slice of the input, with only whitespace outside it |
| Text.StripSurrounded | app.py:72-74 | whitespace around a clean string is removed and the string itself is kept whole |
| Text.StripWithout | app.py:80 | stripping never introduces a character, so a stripped piece has no comma |
| Text.StripClean | app.py:72-74 | a string without surrounding whitespace is left unchanged |
| Text.StripIdempotent | app.py:72-74 | stripping twice is stripping once |
| Text.Count | app.py:80 | the number of occurrences is zero exactly when the character is absent |
| Text.CountOccurrences | app.py:80 | the count is the multiplicity of the character in the string |
| Text.Split | app.py:80 | `str.split(c)`: one more piece than occurrences of `c`, and no piece contains `c` |
| Text.JoinSplit | app.py:80 | joining the pieces with the separator gives back the string |
| Text.SplitWithout | app.py:80 | a string without the separator splits into itself alone |
| Text.SplitAfter | app.py:80 | the first separator ends the first piece |
| Text.SplitSep | app.py:86 | a separator divides the pieces: splitting `a + sep + b` gives the pieces of `a` followed by those of `b` |
| Text.SplitJoin | app.py:80 | splitting a join of separator-free pieces gives back those pieces |
| Text.SplitAllEmpty | app.py:86 | every piece is empty exactly when the string consists only of separators |
| Form.DropEmpty | app.py:86 | the `if p` filter keeps every non-empty piece and only those, and keeps a list with no empty piece unchanged (order: `Form.DropEmptyAppend`) |
| Form.DropEmptyAppend | app.py:86 | the `if p` filter keeps order: filtering a concatenation concatenates the filtered parts |
| Form.Segments | app.py:86 | every path segment is non-empty and contains no `/` |
| Form.SegmentsSlash | app.py:86 | a slash divides the path: `a/b` has the segments of `a` followed by those of `b` |
| Form.SegmentsNone | app.py:86 | an empty path has no segments and addresses the root |
| Form.SegmentsLeadingSlash | app.py:86 | a leading slash is ignored |
| Form.SegmentsTrailingSlash | app.py:86 | a trailing slash is ignored |
| Form.SegmentsDoubleSlash | app.py:86 | a doubled slash addresses the same segments as a single one |
| Form.SegmentsExample | app.py:86 | `"/a//b/"` gives the segments `"a"` and `"b"` |
| Form.SegmentsEmpty | app.py:86 | the root is addressed exactly when the path is empty or only slashes |
| Form.SegmentsJoin | app.py:86 | well-formed segments joined with `/` split back into the same segments |
| Form.PathFieldJoin | app.py:72-86 | a path field with no surrounding whitespace gives exactly its segments |
| Form.PathKeepsInnerSpaces | app.py:72-86 | `"a / b"` gives the segments `"a "` and `" b"`: only the whole field is stripped |
| Form.KeyOf | app.py:73-77 | the key is rejected exactly when the field is all whitespace. An accepted key is non-empty, has no whitespace at either end, and is a slice of the field with only whitespace outside it, which is `field.strip()` |
| Form.StripAll | app.py:80 | the i-th item is the i-th piece, stripped |
| Form.ParseValue | app.py:74-80 | a stripped value containing a comma becomes a list: one item per piece, each a stripped, comma-free string. Otherwise it is the stripped string |
| Form.ParseValueItems | app.py:80 | item i is the i-th comma-separated piece, stripped |
| Form.ParseValueJoin | app.py:80 | two or more comma-free pieces, joined into a field with no whitespace at either end, parse to the list of the stripped pieces |
| Form.ParseValueList | app.py:80 | `"a, b ,c"` gives `["a", "b", "c"]` |
| Form.ParseValueScalar | app.py:74-80 | `" x "` gives `"x"`: the value is stripped even without a comma |
| Form.ParseValueKeepsEmpty | app.py:80 | `"a,,b"` gives `["a", "", "b"]`: empty pieces are kept |
| JsonTree.LookupPrefix | app.py:28-31 | a path that resolves went through a mapping at every proper prefix |
| JsonTree.Vivify | app.py:25-32 | after the walk, when it does not raise, the whole path resolves |
| JsonTree.Put | app.py:90 | the mapping at the path stays a mapping, and path/key holds the value |
| JsonTree.Remove | app.py:115 | the mapping at the path stays a mapping, and path/key no longer resolves |
| JsonTree.IsInfix | app.py:114 | `k in s` for strings is true exactly when `k` is a prefix of some suffix of `s` |
| JsonTree.Membership | app.py:114 | Python's `key in target`: key membership for a mapping, a substring test for a string, equality with some element for a list, and `TypeError` (`None`) exactly for a number, boolean or null |
| JsonTree.VivifyWalkable | app.py:25-32 | the walk succeeds exactly when every value met before the end of the path is a mapping |
| JsonTree.FailKeepsRoot | app.py:29-31 | the part of a failing walk that succeeds has changed nothing, because a walk that creates a `{}` cannot fail below it |
| JsonTree.EmptyWalkable | app.py:10-12 | from an empty document every path can be walked and inserted into |
| JsonTree.MappingsAlongIff | app.py:25-32 | every value along the path is a mapping exactly when the walk succeeds and the end, if present, is a mapping |
| JsonTree.VivifyTarget | app.py:25-32 | the value returned is the one at the path before, or `{}` if the path was missing |
| JsonTree.VivifyFrame | app.py:25-32 | every lookup that is not a prefix of the path is unchanged by the walk |
| JsonTree.VivifyAlongPath | app.py:28-31 | each level of the path is a mapping afterwards; its keys are the old ones plus the next segment; a level that already existed was a mapping |
| JsonTree.VivifyKeepsBindings | app.py:29-30 | the walk removes no binding and only adds keys to mappings |
| JsonTree.VivifyIdempotent | app.py:25-32 | a second walk along the same path changes nothing |
| JsonTree.VivifyExisting | app.py:29 | a path that already resolves is walked without any change |
| JsonTree.VivifyStep | app.py:28-31 | one more segment: raise on a non-mapping, keep an existing key, or bind a missing one to `{}` |
| JsonTree.VivifyStuck | app.py:29-31 | once the walk reaches a non-mapping with segments left, it raises |
| JsonTree.PutFrame | app.py:90 | the assignment leaves every lookup unchanged unless it leads to the target or goes through path/key |
| JsonTree.RemoveFrame | app.py:115 | the deletion leaves every lookup unchanged unless it leads to the target or goes through path/key |
| JsonTree.PutPut | app.py:90 | assigning the same key twice keeps only the second value |
| Editor.Document.constructor | app.py:83 | the in-memory document is the one loaded |
| Editor.Document.GetTarget | app.py:25-32 | the loop succeeds exactly when `Vivify` does and leaves its result in `root`; on failure nothing changes; an empty path changes nothing |
| Editor.Document.Assign | app.py:90 | succeeds exactly when the target is a mapping, in which case `root` becomes `Put`; otherwise nothing changes |
| Editor.Document.Delete | app.py:115 | succeeds exactly when the target is a mapping holding the key, in which case `root` becomes `Remove`; otherwise nothing changes |
| Routes.Saved | app.py:93 | a document is written exactly for an insert that succeeded or a delete that found the key (app.py:116), and it is the reply's document |
| Routes.InsertReply | app.py:70-93 | insert answers 400 exactly when the key field is all whitespace, and never gives a delete outcome |
| Routes.InsertInto | app.py:83-93 | after the key check, insert either raises or saves a document |
| Routes.DeleteReply | app.py:102-119 | delete answers 400 exactly when the key field is all whitespace, and never gives the insert outcome |
| Routes.DeleteFrom | app.py:110-119 | after the key check, delete neither answers 400 nor gives the insert outcome |
| Routes.Insert | app.py:70-93 | the route body, step by step on a `Document`, gives exactly `InsertReply` |
| Routes.Delete | app.py:102-119 | the route body, step by step on a `Document`, gives exactly `DeleteReply` |
| Routes.InsertSucceedsIff | app.py:86-93 | insert saves exactly when every existing value along the path, root and target included, is a mapping; otherwise nothing is saved |
| Routes.InsertEffect | app.py:86-93 | after insert: path/key holds the value, every prefix of the path is a mapping, sibling keys and everything off the path are unchanged, and the new document is saved |
| Routes.InsertTwice | app.py:87-90 | a second insert at the same path and key is the same as inserting only the second value |
| Routes.InsertExample | app.py:70-93 | `p/q`, `k`, `v` into `{}` gives `{"p": {"q": {"k": "v"}}}` |
| Routes.DeleteFoundIff | app.py:111-117 | delete removes something exactly when the path already leads to a mapping holding the key |
| Routes.DeleteEffect | app.py:114-117 | after a successful delete: path/key is gone though it existed, siblings and everything off the path are unchanged, the result is saved, and the message names the path and key |
| Routes.DeleteNotFound | app.py:111-119 | a not-found delete saves nothing; the key was absent; the document shown has the path created, no binding lost and nothing off the path changed |
| Routes.DeleteMissingKey | app.py:111-119 | along mappings, a missing key is answered not-found |
| Routes.DeleteNonMapping | app.py:112-119 | a path ending at a string, list or atom never saves. A substring of the string, or a string element of the list, raises on `del`; an atom raises on `in`; anything else is not found |
| Routes.LookupAfter | app.py:114 | path/key resolves exactly when the path leads to a mapping holding the key |

## Left out

- The web layer is left out: Flask, the routes' HTTP wiring and the HTML pages (app.py:1, 5, 35-67, 95-99, 121-125, 128-129). A reply is a datatype carrying the document that is shown.
- File I/O is left out: creating `data.json` (app.py:9-12), `load_data` and `save_data` (app.py:15-22). The loaded document is a parameter. `Routes.Saved` says which document a reply would write.
- JSON text is not modelled: parsing, formatting with `indent=4`, and `ensure_ascii=False`. Numbers, booleans and null are kept as an opaque `Atom`.
- The order of keys in a mapping is not modelled, because mappings are Dafny maps. The saved file's key order is therefore outside the model.
- Exceptions other than `TypeError` are left out: an I/O failure, or a file that is not valid JSON. The route's missing-field default `""` is not modelled separately, because a missing field behaves as an empty one.
- Python references into the loaded tree are named by their paths, because a freshly loaded tree shares no node. Aliasing other than that is not modelled.
- Routes.DeleteReply: the message text is left out. The reply carries the stripped path and the key, which is what the message shows.
- Concurrent requests and the race between load and save are left out.
- Whitespace is Python's `str.isspace` set, fixed as a list of code points. Unicode database updates are not followed.

See `Text.IsSpace` for the exact list.
