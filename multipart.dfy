/** The uploaded file parts of a multipart request, as the web framework hands
    them to a handler: a multi-dictionary from form field name to file part,
    kept in the order the parts arrived. */
module Multipart {
  import opened Python

  newtype byte = x: int | 0 <= x < 256

  /** One uploaded file: the client's file name, its declared content type
      (absent when the part declares none) and the bytes a `read()` returns. */
  datatype FilePart = FilePart(filename: string, contentType: Option<string>, content: seq<byte>)

  /** A file part under its form field name. */
  datatype Field = Field(name: string, file: FilePart)

  /** Position `i` holds the first part under `name`. */
  ghost predicate FirstWithName(files: seq<Field>, name: string, i: int)
  {
    && 0 <= i < |files|
    && files[i].name == name
    && forall j :: 0 <= j < i ==> files[j].name != name
  }

  lemma FirstWithNameUnique(files: seq<Field>, name: string, i1: int, i2: int)
    requires FirstWithName(files, name, i1) && FirstWithName(files, name, i2)
    ensures i1 == i2
  {
  }

  /** `name in files` and `files[name]`: the first part under `name`, if any. */
  function Get(files: seq<Field>, name: string): (r: Option<FilePart>)
    ensures r.None? <==> forall i :: 0 <= i < |files| ==> files[i].name != name
    ensures r.Some? ==> exists i :: FirstWithName(files, name, i) && files[i].file == r.value
  {
    if files == [] then None
    else if files[0].name == name then
      assert FirstWithName(files, name, 0);
      Some(files[0].file)
    else
      var r := Get(files[1..], name);
      assert forall i :: 0 < i < |files| ==> files[i] == files[1..][i - 1];
      assert r.Some? ==> exists i :: FirstWithName(files, name, i) && files[i].file == r.value by {
        if r.Some? {
          var i :| FirstWithName(files[1..], name, i) && files[1..][i].file == r.value;
          assert FirstWithName(files, name, i + 1);
        }
      }
      r
  }

  /** Where the first part under `name` sits, or `|files|` when there is none. */
  function FirstIndex(files: seq<Field>, name: string): (i: nat)
    ensures i <= |files|
    ensures i < |files| <==> exists k :: 0 <= k < |files| && files[k].name == name
    ensures i < |files| ==> FirstWithName(files, name, i)
  {
    if files == [] then 0
    else if files[0].name == name then 0
    else
      var i := FirstIndex(files[1..], name);
      assert forall k :: 0 < k < |files| ==> files[k] == files[1..][k - 1];
      i + 1
  }

  /** `list(files.keys())`: each field name once. */
  function Keys(files: seq<Field>): (ks: seq<string>)
    ensures Distinct(ks)
    ensures forall n :: n in ks <==> exists i :: 0 <= i < |files| && files[i].name == n
  {
    if files == [] then []
    else
      var front := files[..|files| - 1];
      var n := files[|files| - 1].name;
      var ks := Keys(front);
      assert forall i :: 0 <= i < |front| ==> front[i] == files[i];
      if n in ks then ks else ks + [n]
  }

  /** A part arriving last does not move the first part of a name seen before. */
  lemma FirstIndexOfPrefix(files: seq<Field>, x: string)
    requires exists i :: 0 <= i < |files| - 1 && files[i].name == x
    ensures FirstIndex(files, x) == FirstIndex(files[..|files| - 1], x)
  {
    var front := files[..|files| - 1];
    assert forall i :: 0 <= i < |front| ==> front[i] == files[i];
    FirstWithNameUnique(files, x, FirstIndex(files, x), FirstIndex(front, x));
  }

  /** The names come in the order their first parts arrived. */
  lemma {:induction false} KeysInArrivalOrder(files: seq<Field>)
    ensures forall a, b :: 0 <= a < b < |Keys(files)| ==>
              FirstIndex(files, Keys(files)[a]) < FirstIndex(files, Keys(files)[b])
  {
    if files != [] {
      var front := files[..|files| - 1];
      var n := files[|files| - 1].name;
      var ks := Keys(front);
      KeysInArrivalOrder(front);
      forall x | x in ks ensures FirstIndex(files, x) == FirstIndex(front, x) < |front| {
        var i :| 0 <= i < |front| && front[i].name == x;
        assert files[i] == front[i];
        FirstIndexOfPrefix(files, x);
      }
      if n !in ks {
        assert FirstIndex(files, n) == |files| - 1 by {
          assert forall i :: 0 <= i < |front| ==> front[i] == files[i];
        }
        assert Keys(files) == ks + [n];
      }
    }
  }
}
