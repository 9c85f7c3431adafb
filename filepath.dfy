/** The path operations of Go's path/filepath package that the search engine relies on, for
    slash-separated paths. */
module FilePath {

  /** filepath.Join of a directory path and an entry name, as the walk forms child paths:
      joining onto "." yields the bare name. */
  function Join(dir: string, name: string): string
  {
    if dir == "." then name else dir + "/" + name
  }

  /** `path` without its trailing '/' characters. */
  function TrimTrailingSlashes(path: string): string
    decreases |path|
  {
    if path != [] && path[|path| - 1] == '/' then TrimTrailingSlashes(path[..|path| - 1]) else path
  }

  /** The characters after the last '/' of `path` (all of it when there is none). */
  function LastElement(path: string): string
    decreases |path|
  {
    if path == [] || path[|path| - 1] == '/' then "" else LastElement(path[..|path| - 1]) + [path[|path| - 1]]
  }

  /** filepath.Base: the last element of the path once trailing slashes are dropped; "." for
      the empty path and "/" for a path of slashes only. This is the name the walk reports for
      every entry it reaches, the root included. */
  function Base(path: string): string
  {
    if path == "" then "."
    else
      var e := LastElement(TrimTrailingSlashes(path));
      if e == "" then "/" else e
  }

  /** The last element of a path that ends in `name`, right after a '/' or at its start. */
  lemma {:induction false} LastElementOfName(front: string, name: string)
    requires front == [] || front[|front| - 1] == '/'
    requires forall i :: 0 <= i < |name| ==> name[i] != '/'
    ensures LastElement(front + name) == name
    decreases |name|
  {
    if name == [] {
      assert front + name == front;
    } else {
      var init := name[..|name| - 1];
      assert (front + name)[..|front + name| - 1] == front + init;
      LastElementOfName(front, init);
      assert init + [name[|name| - 1]] == name;
    }
  }

  /** The base of an entry name, alone or joined onto a directory, is that name: for every entry
      below the root, the name the walk reports is the name the directory lists. */
  lemma BaseOfName(dir: string, name: string)
    requires name != "" && forall i :: 0 <= i < |name| ==> name[i] != '/'
    ensures Base(name) == name
    ensures Base(Join(dir, name)) == name
  {
    LastElementOfName("", name);
    assert "" + name == name;
    var path := Join(dir, name);
    var front := if dir == "." then "" else dir + "/";
    assert path == front + name;
    LastElementOfName(front, name);
  }

  /** filepath.Ext: the suffix of the final path element that starts at its last '.',
      or "" when the final element has no '.'. */
  function Ext(path: string): string
    decreases |path|
  {
    if path == [] then ""
    else
      var last := path[|path| - 1];
      if last == '/' then ""
      else if last == '.' then "."
      else
        var e := Ext(path[..|path| - 1]);
        if e == "" then "" else e + [last]
  }

  /** Ext is the suffix of the path that starts at the last '.' of its final element: it begins
      with '.', holds no further '.' or '/', and is empty exactly when every '.' of the path lies
      in a directory name (or there is none). */
  lemma {:induction false} ExtIsFinalSuffix(path: string)
    ensures var ext := Ext(path);
      |ext| <= |path| && ext == path[|path| - |ext|..] &&
      (ext != "" ==> ext[0] == '.' && forall i :: 0 < i < |ext| ==> ext[i] != '.' && ext[i] != '/') &&
      (ext == "" ==> forall i :: 0 <= i < |path| && path[i] == '.' ==> exists j :: i < j < |path| && path[j] == '/')
    decreases |path|
  {
    if path != [] {
      var last := path[|path| - 1];
      if last != '/' && last != '.' {
        var front := path[..|path| - 1];
        ExtIsFinalSuffix(front);
        assert forall i :: 0 <= i < |front| ==> front[i] == path[i];
        var e := Ext(front);
        if e != "" {
          assert e + [last] == path[|path| - |e| - 1..];
        }
      }
    }
  }
}
