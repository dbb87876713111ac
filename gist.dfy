/**
 * The gist side of `updateGist` in main.go: the attribution suffix, the
 * composed file content, and the in-place update of one file of the gist.
 * The GitHub client itself is outside the model.
 */
module Gist {
  import opened Wrappers

  /** A file of a gist as go-github represents it: every field is a pointer that may be nil. */
  datatype GistFile = GistFile(
    size: Option<int>,
    filename: Option<string>,
    language: Option<string>,
    fileType: Option<string>,
    rawURL: Option<string>,
    content: Option<string>)

  /** The zero value of `github.GistFile`, which a lookup of a missing filename yields. */
  const ZeroFile := GistFile(None, None, None, None, None, None)

  /** The files of a gist, keyed by filename. */
  type Files = map<string, GistFile>

  /**
   * A gist as the GitHub client returns it, reduced to its file map, which
   * is nil (`None`) when the response has no `files` member.
   */
  datatype FetchedGist = FetchedGist(files: Option<Files>)

  /** What the attribution starts with: a newline, a space and three dashes. */
  const Dashes := "\n ---"

  /** What separates the quote from the time stamp: two newlines and the label "更新於" ("updated at"). */
  const UpdatedLabel := "\n\n\U{66F4}\U{65B0}\U{65BC} "

  /**
   * The attribution suffix: empty when the response names neither a source
   * work nor an author; otherwise the dashes followed by the work, or by the
   * author when there is no work.
   */
  function Attribution(from: string, fromWho: string): (r: string)
    ensures r == [] <==> from == [] && fromWho == []
    ensures from != [] ==> r == Dashes + from
    ensures from == [] && fromWho != [] ==> r == Dashes + fromWho
  {
    if from == [] && fromWho == [] then ""
    else if from != [] then Dashes + from
    else Dashes + fromWho
  }

  /** The first non-empty name of `names`, if there is one. */
  function FirstNamed(names: seq<string>): (r: Option<string>)
    ensures r.Some? ==> r.value != []
    ensures r.Some? ==> exists i :: 0 <= i < |names| && names[i] == r.value
                                    && forall j :: 0 <= j < i ==> names[j] == []
    ensures r.None? <==> forall i :: 0 <= i < |names| ==> names[i] == []
  {
    if names == [] then None
    else if names[0] != [] then Some(names[0])
    else
      var r := FirstNamed(names[1..]);
      assert r.Some? ==> exists i :: 0 <= i < |names| && names[i] == r.value
                                     && forall j :: 0 <= j < i ==> names[j] == [] by {
        if r.Some? {
          var k :| 0 <= k < |names| - 1 && names[1..][k] == r.value
                   && forall j :: 0 <= j < k ==> names[1..][j] == [];
          assert forall j :: 0 <= j < k + 1 ==> names[j] == [] by {
            forall j | 0 <= j < k + 1 ensures names[j] == [] {
              if j > 0 { assert names[j] == names[1..][j - 1]; }
            }
          }
        }
      }
      r
  }

  /**
   * The attribution names the first non-empty of the source work and the
   * author, and is empty when both are.
   */
  lemma AttributionNamesFirst(from: string, fromWho: string)
    ensures Attribution(from, fromWho)
      == match FirstNamed([from, fromWho]) case None => "" case Some(name) => Dashes + name
  {
    assert [from, fromWho][1..] == [fromWho];
    assert [fromWho][1..] == [];
  }

  /**
   * The content written to the gist: the converted quote, the attribution,
   * the label and the time stamp, one after the other, and each part can be
   * read back from its place.
   */
  function Content(hito: string, attribution: string, now: string): (r: string)
    ensures |r| == |hito| + |attribution| + |UpdatedLabel| + |now|
    ensures r[..|hito|] == hito
    ensures r[|hito|..|hito| + |attribution|] == attribution
    ensures r[|hito| + |attribution|..|r| - |now|] == UpdatedLabel
    ensures r[|r| - |now|..] == now
  {
    var r := hito + attribution + UpdatedLabel + now;
    assert r[..|hito|] == hito;
    assert r[|hito|..|hito| + |attribution|] == attribution;
    assert r[|hito| + |attribution|..|r| - |now|] == UpdatedLabel;
    r
  }

  /**
   * The file map after setting the content of `name`: that file holds the
   * content and keeps its other fields, a missing file is created with only
   * its content set, and every other file is left as it was.
   */
  function WithFileContent(files: Files, name: string, content: string): (r: Files)
    ensures r.Keys == files.Keys + {name}
    ensures r[name].content == Some(content)
    ensures name in files ==> r[name] == files[name].(content := Some(content))
    ensures name !in files ==> r[name] == GistFile(None, None, None, None, None, Some(content))
    ensures forall k :: k in files && k != name ==> r[k] == files[k]
  {
    var f := if name in files then files[name] else ZeroFile;
    files[name := f.(content := Some(content))]
  }

  /** Setting a file's content twice leaves what the second write set. */
  lemma WithFileContentLastWins(files: Files, name: string, first: string, second: string)
    ensures WithFileContent(WithFileContent(files, name, first), name, second)
         == WithFileContent(files, name, second)
  {
    var once := WithFileContent(files, name, first);
    var twice := WithFileContent(once, name, second);
    var direct := WithFileContent(files, name, second);
    assert twice.Keys == direct.Keys;
    forall k | k in twice ensures twice[k] == direct[k] {
      if k == name {
        if name in files {
          assert twice[k] == files[name].(content := Some(second));
        } else {
          assert twice[k] == ZeroFile.(content := Some(second));
        }
      }
    }
  }

  /** The gist fetched from GitHub, whose file map `updateGist` changes in place. */
  class Gist {
    var files: Files

    constructor (files: Files)
      ensures this.files == files
    {
      this.files := files;
    }

    /** Looks up the file (the zero file when missing), sets its content and stores it back. */
    method SetFileContent(name: string, content: string)
      modifies this
      ensures files == WithFileContent(old(files), name, content)
    {
      var f := if name in files then files[name] else ZeroFile;
      f := f.(content := Some(content));
      files := files[name := f];
    }
  }
}
