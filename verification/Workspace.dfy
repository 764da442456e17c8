/** Workspace-relative paths as the output contracts use them. Path resolution (symbolic links and
    "..") and existence are parameters; resolution is only assumed to be idempotent and canonical. */
module Workspace {
  import opened Text

  /** An absolute path is the list of its components. */
  datatype Files = Files(
    workspace: seq<string>,
    resolve: seq<string> -> seq<string>,
    exists_: seq<string> -> bool)

  predicate Component(c: string) {
    c != "" && c != "." && c != ".." && '/' !in c
  }

  predicate Canonical(path: seq<string>) {
    forall i :: 0 <= i < |path| ==> Component(path[i])
  }

  /** `Path.resolve` yields canonical paths, leaves resolved paths alone, and the workspace is resolved. */
  ghost predicate Sound(fs: Files) {
    && (forall p :: Canonical(fs.resolve(p)) && fs.resolve(fs.resolve(p)) == fs.resolve(p))
    && fs.resolve(fs.workspace) == fs.workspace
  }

  predicate Within(path: seq<string>, root: seq<string>) {
    root <= path
  }

  function DropDots(parts: seq<string>): seq<string> {
    if parts == [] then []
    else (if parts[0] == "" || parts[0] == "." then [] else [parts[0]]) + DropDots(parts[1..])
  }

  /** `Path(text).parts` of a relative path. */
  function Parts(text: string): seq<string> {
    DropDots(Split(text, '/'))
  }

  predicate Absolute(text: string) {
    text != "" && text[0] == '/'
  }

  /** `_resolve_workspace_path`. */
  function ResolveIn(fs: Files, text: string): Option<seq<string>> {
    if text == "" || Absolute(text) then None
    else
      var candidate := fs.resolve(fs.workspace + Parts(text));
      if Within(candidate, fs.workspace) then Some(candidate) else None
  }

  /** `path.as_posix()` of a relative path. */
  function Posix(parts: seq<string>): string {
    if parts == [] then "." else Join(parts, '/')
  }

  lemma {:induction false} DropDotsKeepsComponents(parts: seq<string>)
    requires Canonical(parts)
    ensures DropDots(parts) == parts
  {
    if parts != [] {
      DropDotsKeepsComponents(parts[1..]);
    }
  }

  lemma {:induction false} JoinStartsWithFirst(parts: seq<string>)
    requires parts != [] && Canonical(parts)
    ensures Join(parts, '/') != "" && Join(parts, '/')[0] == parts[0][0] && parts[0][0] != '/'
  {
    assert parts[0][0] in parts[0];
  }

  /** Printing a canonical relative path and reading it back gives the same components. */
  lemma PosixRoundTrip(parts: seq<string>)
    requires Canonical(parts)
    ensures Posix(parts) != "" && !Absolute(Posix(parts)) && Parts(Posix(parts)) == parts
  {
    if parts == [] {
      assert Split(".", '/') == ["."] by {
        SplitToken(".", '/');
      }
      assert DropDots(["."]) == [];
    } else {
      JoinStartsWithFirst(parts);
      SplitJoin(parts, '/');
      DropDotsKeepsComponents(parts);
    }
  }

  /** A resolved path inside the workspace, printed relative to it, resolves to itself. */
  lemma RelativeRoundTrip(fs: Files, target: seq<string>)
    requires Sound(fs) && fs.resolve(target) == target && Within(target, fs.workspace)
    ensures ResolveIn(fs, Posix(target[|fs.workspace|..])) == Some(target)
    ensures Canonical(target[|fs.workspace|..])
    ensures Parts(Posix(target[|fs.workspace|..])) == target[|fs.workspace|..]
  {
    var rest := target[|fs.workspace|..];
    assert Canonical(fs.resolve(target));
    assert Canonical(rest);
    PosixRoundTrip(rest);
    assert fs.workspace + rest == target;
  }
}
