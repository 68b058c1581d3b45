/** The three form fields of a request, as the `insert` and `delete` routes
    read them: the path split into segments, the key stripped and checked,
    the value parsed into a string or a list of strings. */
module Form {
  import opened Wrappers
  import opened Text
  import opened JsonTree

  /** A path segment as the walk uses it: non-empty, without `/`. */
  predicate IsSegment(seg: string) {
    seg != [] && '/' !in seg
  }

  /** The list comprehension's `if p`: the non-empty strings, in order. */
  function DropEmpty(xs: seq<string>): (r: seq<string>)
    ensures forall x <- r :: x != [] && x in xs
    ensures forall x <- xs :: x != [] ==> x in r
    ensures (forall x <- xs :: x != []) ==> r == xs
    ensures r == [] <==> forall x <- xs :: x == []
  {
    if xs == [] then []
    else
      var rest := DropEmpty(xs[1..]);
      assert forall x <- xs[1..] :: x in xs;
      assert xs[0] in xs;
      if xs[0] == [] then
        assert forall x :: x in xs <==> x == xs[0] || x in xs[1..];
        rest
      else
        assert xs == [xs[0]] + xs[1..];
        [xs[0]] + rest
  }

  /** The filter keeps order: filtering a concatenation is concatenating the
      filtered parts. */
  lemma {:induction false} DropEmptyAppend(xs: seq<string>, ys: seq<string>)
    ensures DropEmpty(xs + ys) == DropEmpty(xs) + DropEmpty(ys)
  {
    if xs != [] {
      assert (xs + ys)[0] == xs[0] && (xs + ys)[1..] == xs[1..] + ys;
      DropEmptyAppend(xs[1..], ys);
    } else {
      assert xs + ys == ys;
    }
  }

  /** `[p for p in path.split("/") if p]`, applied to the already stripped
      path: the segments between slashes, with empty ones dropped. */
  function Segments(path: string): (segs: seq<string>)
    ensures forall seg <- segs :: IsSegment(seg)
  {
    DropEmpty(Split(path, '/'))
  }

  /** An empty path, or one made of slashes only, addresses the root; any
      other character gives at least one segment. */
  lemma SegmentsEmpty(path: string)
    ensures Segments(path) == [] <==> forall k :: 0 <= k < |path| ==> path[k] == '/'
  {
    SplitAllEmpty(path, '/');
    assert Segments(path) == [] <==> forall piece <- Split(path, '/') :: piece == [];
  }

  /** A slash separates the segments on its left from those on its right. */
  lemma SegmentsSlash(a: string, b: string)
    ensures Segments(a + ['/'] + b) == Segments(a) + Segments(b)
  {
    SplitSep(a, b, '/');
    DropEmptyAppend(Split(a, '/'), Split(b, '/'));
  }

  /** An empty path has no segments. */
  lemma SegmentsNone()
    ensures Segments([]) == []
  {
    assert Split([], '/') == [[]];
  }

  /** Extra slashes are ignored: a leading, a trailing or a doubled slash
      leaves the segments as they are. */
  lemma SegmentsLeadingSlash(a: string)
    ensures Segments(['/'] + a) == Segments(a)
  {
    SegmentsNone();
    SegmentsSlash([], a);
    assert [] + ['/'] + a == ['/'] + a;
  }

  lemma SegmentsTrailingSlash(a: string)
    ensures Segments(a + ['/']) == Segments(a)
  {
    SegmentsNone();
    SegmentsSlash(a, []);
    assert a + ['/'] + [] == a + ['/'];
  }

  lemma SegmentsDoubleSlash(a: string, b: string)
    ensures Segments(a + ['/', '/'] + b) == Segments(a + ['/'] + b)
  {
    var c := ['/'] + b;
    calc {
      Segments(a + ['/', '/'] + b);
      { assert a + ['/'] + c == a + ['/', '/'] + b; }
      Segments(a + ['/'] + c);
      { SegmentsSlash(a, c); }
      Segments(a) + Segments(c);
      { SegmentsLeadingSlash(b); }
      Segments(a) + Segments(b);
      { SegmentsSlash(a, b); }
      Segments(a + ['/'] + b);
    }
  }

  /** `"/a//b/"` addresses the segments `"a"` and `"b"`. */
  lemma SegmentsExample()
    ensures Segments("/a//b/") == ["a", "b"]
  {
    assert "/a//b/" == ['/'] + ("a" + ['/', '/'] + "b") + ['/'];
    PaddedPair("a", "b");
  }

  lemma PaddedPair(x: string, y: string)
    requires IsSegment(x) && IsSegment(y)
    ensures Segments(['/'] + (x + ['/', '/'] + y) + ['/']) == [x, y]
  {
    var m := x + ['/', '/'] + y;
    assert ['/'] + m + ['/'] == ['/'] + (m + ['/']);
    SegmentsLeadingSlash(m + ['/']);
    SegmentsTrailingSlash(m);
    SegmentsDoubleSlash(x, y);
    assert Join([x, y], '/') == x + ['/'] + y;
    SegmentsJoin([x, y]);
  }

  /** Segments joined with `/` split back into the same segments, so a
      segment keeps any space inside it. */
  lemma SegmentsJoin(segs: seq<string>)
    requires forall seg <- segs :: IsSegment(seg)
    ensures Segments(Join(segs, '/')) == segs
  {
    if segs != [] {
      SplitJoin(segs, '/');
    }
  }

  /** The whole path field is stripped and nothing else: a path written
      without surrounding whitespace gives exactly its segments. */
  lemma PathFieldJoin(segs: seq<string>)
    requires forall seg <- segs :: IsSegment(seg)
    requires Clean(Join(segs, '/'))
    ensures Segments(Strip(Join(segs, '/'))) == segs
  {
    StripClean(Join(segs, '/'));
    SegmentsJoin(segs);
  }

  /** `"a / b"` gives the segments `"a "` and `" b"`. */
  lemma PathKeepsInnerSpaces()
    ensures Segments(Strip("a / b")) == ["a ", " b"]
  {
    assert Join(["a ", " b"], '/') == "a / b";
    PathFieldJoin(["a ", " b"]);
  }

  /** The key field, stripped; `None` when nothing but whitespace is left,
      which the routes answer with status 400. */
  function KeyOf(field: string): (key: Option<string>)
    ensures key.None? <==> forall k :: 0 <= k < |field| ==> IsSpace(field[k])
    ensures key.Some? ==> key.value != [] && Clean(key.value)
    ensures key.Some? ==> exists i, j :: 0 <= i <= j <= |field| && key.value == field[i..j]
                            && forall k :: 0 <= k < i || j <= k < |field| ==> IsSpace(field[k])
  {
    var key := Strip(field);
    StripEmpty(field);
    StripSlice(field);
    if key == [] then None else Some(key)
  }

  /** The pieces, each stripped, as the strings of a JSON list. */
  function StripAll(pieces: seq<string>): (items: seq<Json>)
    ensures |items| == |pieces|
    ensures forall i :: 0 <= i < |pieces| ==> items[i] == Str(Strip(pieces[i]))
  {
    if pieces == [] then []
    else [Str(Strip(pieces[0]))] + StripAll(pieces[1..])
  }

  /** The value field: stripped; if it then holds a comma, the list of its
      comma-separated pieces, each stripped, empty pieces kept; otherwise the
      stripped string itself. */
  function ParseValue(field: string): (v: Json)
    ensures var raw := Strip(field);
            if ',' in raw then
              && v.Arr?
              && |v.items| == Count(raw, ',') + 1
              && forall item <- v.items :: item.Str? && ',' !in item.text && Clean(item.text)
            else v == Str(raw)
  {
    var raw := Strip(field);
    if ',' in raw then
      var pieces := Split(raw, ',');
      var items := StripAll(pieces);
      assert forall item <- items :: item.Str? && ',' !in item.text && Clean(item.text) by {
        forall item <- items ensures item.Str? && ',' !in item.text && Clean(item.text) {
          var i :| 0 <= i < |items| && items[i] == item;
          StripWithout(pieces[i], ',');
        }
      }
      Arr(items)
    else Str(raw)
  }

  /** Each list item is the stripped piece at the same place. */
  lemma ParseValueItems(field: string, i: nat)
    requires ',' in Strip(field)
    requires i < |Split(Strip(field), ',')|
    ensures ParseValue(field).items[i] == Str(Strip(Split(Strip(field), ',')[i]))
  {
  }

  /** A value written as two or more comma-separated pieces, with no
      whitespace at its ends, parses to the list of the stripped pieces. */
  lemma ParseValueJoin(pieces: seq<string>)
    requires |pieces| >= 2
    requires forall p <- pieces :: ',' !in p
    requires Clean(Join(pieces, ','))
    ensures ParseValue(Join(pieces, ',')) == Arr(StripAll(pieces))
  {
    var raw := Join(pieces, ',');
    StripClean(raw);
    SplitJoin(pieces, ',');
    assert raw == pieces[0] + [','] + Join(pieces[1..], ',');
    assert raw[|pieces[0]|] == ',';
  }

  /** `"a, b ,c"` gives the list `["a", "b", "c"]`. */
  lemma ParseValueList()
    ensures ParseValue("a, b ,c") == Arr([Str("a"), Str("b"), Str("c")])
  {
    var pieces := ["a", " b ", "c"];
    assert pieces[1..] == [" b ", "c"] && pieces[1..][1..] == ["c"];
    assert Join([" b ", "c"], ',') == " b ,c";
    assert Join(pieces, ',') == "a, b ,c";
    ParseValueJoin(pieces);
    StripPadded(pieces);
  }

  lemma StripPadded(pieces: seq<string>)
    requires pieces == ["a", " b ", "c"]
    ensures StripAll(pieces) == [Str("a"), Str("b"), Str("c")]
  {
    assert pieces[0] == "" + "a" + "" && pieces[1] == " " + "b" + " " && pieces[2] == "" + "c" + "";
    StripSurrounded("", "a", "");
    StripSurrounded(" ", "b", " ");
    StripSurrounded("", "c", "");
    StripAll3(pieces);
  }

  lemma StripPlain(pieces: seq<string>)
    requires pieces == ["a", "", "b"]
    ensures StripAll(pieces) == [Str("a"), Str(""), Str("b")]
  {
    assert pieces[0] == "" + "a" + "" && pieces[1] == "" + "" + "" && pieces[2] == "" + "b" + "";
    StripSurrounded("", "a", "");
    StripSurrounded("", "", "");
    StripSurrounded("", "b", "");
    StripAll3(pieces);
  }

  lemma StripAll3(pieces: seq<string>)
    requires |pieces| == 3
    ensures StripAll(pieces) == [Str(Strip(pieces[0])), Str(Strip(pieces[1])), Str(Strip(pieces[2]))]
  {
    assert pieces[1..][1..][1..] == [];
  }

  /** `" x "` gives the string `"x"`: the value is stripped even when it
      holds no comma. */
  lemma ParseValueScalar()
    ensures ParseValue(" x ") == Str("x")
  {
    assert " " + "x" + " " == " x ";
    StripSurrounded(" ", "x", " ");
  }

  /** `"a,,b"` keeps the empty piece: `["a", "", "b"]`. */
  lemma ParseValueKeepsEmpty()
    ensures ParseValue("a,,b") == Arr([Str("a"), Str(""), Str("b")])
  {
    var pieces := ["a", "", "b"];
    assert pieces[1..] == ["", "b"] && pieces[1..][1..] == ["b"];
    assert Join(["", "b"], ',') == ",b";
    assert Join(pieces, ',') == "a,,b";
    ParseValueJoin(pieces);
    StripPlain(pieces);
  }
}
