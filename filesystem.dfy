/**
 * The disk as the deployer sees it through `java.io.File`, `Files` and
 * Apache Commons IO's `FileUtils`: a map from absolute paths to directories
 * and files, and the three mutating primitives the deployer uses
 * (`FileUtils.copyFile`, `File.delete`, `FileUtils.deleteDirectory`),
 * each given as a function on trees and as a method on the disk object.
 */
module FileSystems {
  import opened Wrappers
  import opened Paths

  type Bytes = seq<bv8>

  datatype Node = Dir | File(content: Bytes)

  /** Every path that exists, with what it is. */
  type Tree = map<Path, Node>

  /** The IOExceptions (and the IllegalArgumentException of `cleanDirectory`)
      the primitives throw. */
  datatype IoError =
    | NoSuchFile(path: Path)
    | IsADirectory(path: Path)
    | NotADirectory(path: Path)
    | SameFile(path: Path)
    | CannotCreateParent(path: Path)

  predicate IsDirectory(t: Tree, p: Path) {
    p in t && t[p].Dir?
  }

  predicate IsRegularFile(t: Tree, p: Path) {
    p in t && t[p].File?
  }

  /** The proper prefixes of `p`: the directories `mkdirs` would create. */
  function Ancestors(p: Path): set<Path> {
    set i | 0 <= i < |p| :: p[..i]
  }

  /** Every existing path at or below `root`. */
  function Subtree(t: Tree, root: Path): set<Path> {
    set p | p in t && IsPrefix(root, p)
  }

  /** The regular files at or below `root`: what `Files.walkFileTree` visits with `visitFile`. */
  function FilesUnder(t: Tree, root: Path): set<Path> {
    set p | p in t && IsPrefix(root, p) && t[p].File?
  }

  /** The directories at or below `root`: what `Files.walkFileTree` visits with `preVisitDirectory`. */
  function DirsUnder(t: Tree, root: Path): set<Path> {
    set p | p in t && IsPrefix(root, p) && t[p].Dir?
  }

  /** Names of the sub-directories of `dir` that start with `prefix`. */
  function SubdirectoryNames(t: Tree, dir: Path, prefix: string): set<string> {
    set p | p in t && |p| == |dir| + 1 && p[..|dir|] == dir && t[p].Dir? && StartsWith(p[|dir|], prefix) :: p[|dir|]
  }

  /** Some proper ancestor of `p` exists as a regular file. */
  predicate BlockedByFile(t: Tree, p: Path) {
    exists i :: 0 <= i < |p| && IsRegularFile(t, p[..i])
  }

  /** `mkdirs` on the parent of `p`: every missing ancestor becomes a directory. */
  function MakeParents(t: Tree, p: Path): Tree {
    t + map a | a in Ancestors(p) && a !in t :: Dir
  }

  /** `FileUtils.copyFile(src, dst)`: the failures it raises before touching
      anything, else the content of `src` written over `dst` with its
      parents created. */
  function Copy(t: Tree, src: Path, dst: Path): Result<Tree, IoError> {
    if src !in t then Failure(NoSuchFile(src))
    else if t[src].Dir? then Failure(IsADirectory(src))
    else if src == dst then Failure(SameFile(src))
    else if IsDirectory(t, dst) then Failure(IsADirectory(dst))
    else if BlockedByFile(t, dst) then Failure(CannotCreateParent(dst))
    else Success(MakeParents(t, dst)[dst := t[src]])
  }

  /** `File.delete()`: removes a regular file or an empty directory and
      silently does nothing otherwise. */
  function Delete(t: Tree, p: Path): Tree {
    if p in t && (t[p].File? || Subtree(t, p) == {p}) then t - {p} else t
  }

  /** `FileUtils.deleteDirectory(p)`: nothing to do for a missing path, a
      failure for a regular file, else the whole subtree goes. */
  function DeleteTree(t: Tree, p: Path): Result<Tree, IoError> {
    if p !in t then Success(t)
    else if t[p].File? then Failure(NotADirectory(p))
    else Success(t - Subtree(t, p))
  }

  /** A successful copy leaves the source's content at the destination, makes
      every ancestor of the destination a directory, and changes no other
      existing path. */
  lemma CopyEffect(t: Tree, src: Path, dst: Path)
    requires Copy(t, src, dst).Success?
    ensures var t' := Copy(t, src, dst).value;
      && dst in t' && t'[dst] == t[src] && t'[dst].File?
      && (forall q :: q in t && q != dst ==> q in t' && t'[q] == t[q])
      && (forall q :: q in t' ==> q in t || q == dst || q in Ancestors(dst))
      && (forall i :: 0 <= i < |dst| ==> IsDirectory(t', dst[..i]))
  {
    var t' := Copy(t, src, dst).value;
    forall i | 0 <= i < |dst| ensures IsDirectory(t', dst[..i]) {
      assert dst[..i] in Ancestors(dst);
      assert |dst[..i]| < |dst|;
      assert !IsRegularFile(t, dst[..i]);
    }
  }

  /** A copy fails exactly when the source is not a regular file, is the
      destination itself, or the destination or one of its parents is in
      the way; a failed copy changes nothing (see FileSystem.CopyFile). */
  lemma CopyFailsIff(t: Tree, src: Path, dst: Path)
    ensures Copy(t, src, dst).Failure? <==>
      !IsRegularFile(t, src) || src == dst || IsDirectory(t, dst) || BlockedByFile(t, dst)
  {
  }

  /** Removing an existing directory tree leaves nothing at or below it and
      keeps everything else; removing a missing one changes nothing. */
  lemma DeleteTreeEffect(t: Tree, p: Path)
    requires DeleteTree(t, p).Success?
    ensures var t' := DeleteTree(t, p).value;
      && (p in t ==> forall q :: q in t' ==> !IsPrefix(p, q))
      && (forall q :: q in t && !IsPrefix(p, q) ==> q in t' && t'[q] == t[q])
      && t'.Keys <= t.Keys
      && (p !in t ==> t' == t)
  {
  }

  /** Deleting a regular file removes it and nothing else. */
  lemma DeleteFileEffect(t: Tree, p: Path)
    requires IsRegularFile(t, p)
    ensures Delete(t, p) == t - {p}
  {
  }

  /** A listed sub-directory name is a directory of that name right below
      `dir`, and it starts with the prefix it was listed under. */
  lemma SubdirectoryNamed(t: Tree, dir: Path, prefix: string, name: string)
    requires name in SubdirectoryNames(t, dir, prefix)
    ensures IsDirectory(t, dir + [name]) && StartsWith(name, prefix)
  {
    var p :| p in t && |p| == |dir| + 1 && p[..|dir|] == dir && t[p].Dir? && StartsWith(p[|dir|], prefix) && p[|dir|] == name;
    assert p == dir + [name];
  }

  /** The sub-directories listed under a prefix are those of the full
      listing that start with it. */
  lemma SubdirectoryNamesByPrefix(t: Tree, dir: Path, prefix: string, name: string)
    ensures name in SubdirectoryNames(t, dir, prefix) <==>
      name in SubdirectoryNames(t, dir, "") && StartsWith(name, prefix)
  {
    if name in SubdirectoryNames(t, dir, "") && StartsWith(name, prefix) {
      SubdirectoryNamed(t, dir, "", name);
      var p := dir + [name];
      assert p[..|dir|] == dir && p[|dir|] == name;
    }
    if name in SubdirectoryNames(t, dir, prefix) {
      SubdirectoryNamed(t, dir, prefix, name);
      var p := dir + [name];
      assert p[..|dir|] == dir && p[|dir|] == name;
    }
  }

  /** The disk shared by the watch engines: its entries change in place,
      and `created` is the creation-time attribute `Files.readAttributes` reads. */
  class FileSystem {
    var tree: Tree
    const created: Path -> int

    constructor (tree: Tree, created: Path -> int)
      ensures this.tree == tree && this.created == created
    {
      this.tree := tree;
      this.created := created;
    }

    method CopyFile(src: Path, dst: Path) returns (r: Outcome<IoError>)
      modifies this
      ensures Copy(old(tree), src, dst).Success? ==> r == Pass && tree == Copy(old(tree), src, dst).value
      ensures Copy(old(tree), src, dst).Failure? ==> r == Fail(Copy(old(tree), src, dst).error) && tree == old(tree)
    {
      match Copy(tree, src, dst)
      case Success(t') =>
        tree := t';
        r := Pass;
      case Failure(e) =>
        r := Fail(e);
    }

    method DeleteFile(p: Path)
      modifies this
      ensures tree == Delete(old(tree), p)
    {
      tree := Delete(tree, p);
    }

    method DeleteDirectory(p: Path) returns (r: Outcome<IoError>)
      modifies this
      ensures DeleteTree(old(tree), p).Success? ==> r == Pass && tree == DeleteTree(old(tree), p).value
      ensures DeleteTree(old(tree), p).Failure? ==> r == Fail(DeleteTree(old(tree), p).error) && tree == old(tree)
    {
      match DeleteTree(tree, p)
      case Success(t') =>
        tree := t';
        r := Pass;
      case Failure(e) =>
        r := Fail(e);
    }

    /** `new File(dir).list(filter)` keeping the sub-directories whose names
        start with `prefix`: null (None) unless `dir` is a directory, else
        each such name once, in an order the operating system chooses. */
    method ListSubdirectories(dir: Path, prefix: string) returns (names: Option<seq<string>>)
      ensures names.Some? <==> IsDirectory(tree, dir)
      ensures names.Some? ==> forall n :: n in names.value <==> n in SubdirectoryNames(tree, dir, prefix)
      ensures names.Some? ==> forall i, j :: 0 <= i < j < |names.value| ==> names.value[i] != names.value[j]
    {
      if !IsDirectory(tree, dir) {
        return None;
      }
      var all := SubdirectoryNames(tree, dir, prefix);
      var remaining := all;
      var listed: seq<string> := [];
      while remaining != {}
        invariant remaining <= all
        invariant forall n :: n in listed <==> n in all && n !in remaining
        invariant forall i, j :: 0 <= i < j < |listed| ==> listed[i] != listed[j]
        decreases remaining
      {
        var n :| n in remaining;
        listed := listed + [n];
        remaining := remaining - {n};
      }
      names := Some(listed);
    }
  }
}
