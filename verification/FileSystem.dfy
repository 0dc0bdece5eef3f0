/** File names as the program spells them, and the part of a file system the copy engine
    can observe: which names exist, what kind of file each is, and the bytes of regular files. */
module FileSystem {

  newtype Byte = b: int | 0 <= b < 256

  /** `Special` stands for every kind of file that is neither a directory nor a regular file. */
  datatype Entry = Reg(data: seq<Byte>) | Dir | Special

  type Fs = map<string, Entry>

  /** The name `copy_dir` builds for entry `name` of directory `dir`. */
  function Join(dir: string, name: string): string {
    dir + "/" + name
  }

  predicate Slashless(name: string) {
    forall i :: 0 <= i < |name| ==> name[i] != '/'
  }

  /** A name `readdir` can report, other than the two self references. */
  predicate EntryName(name: string) {
    name != "" && name != "." && name != ".." && Slashless(name)
  }

  /** `path` is `root` itself or lies beneath it. */
  predicate Under(root: string, path: string) {
    path == root || root + "/" <= path
  }

  /** Index of the last slash, or -1. */
  function LastSlash(path: string): (i: int)
    ensures -1 <= i < |path|
    ensures 0 <= i ==> path[i] == '/'
    ensures forall j :: i < j < |path| ==> path[j] != '/'
  {
    if path == "" then -1
    else if path[|path| - 1] == '/' then |path| - 1
    else LastSlash(path[..|path| - 1])
  }

  function ParentOf(path: string): string {
    if LastSlash(path) < 0 then "" else path[..LastSlash(path)]
  }

  function BaseOf(path: string): string {
    path[LastSlash(path) + 1..]
  }

  /** The system calls that create `path` need its parent directory; the empty parent stands for
      the working directory or the root. */
  predicate ParentExists(fs: Fs, path: string) {
    ParentOf(path) == "" || (ParentOf(path) in fs && fs[ParentOf(path)].Dir?)
  }

  /** `path` is an entry of directory `dir`. */
  predicate ChildOf(dir: string, path: string) {
    dir + "/" <= path && EntryName(path[|dir| + 1..])
  }

  predicate HangsFromDir(fs: Fs, path: string) {
    ParentOf(path) in fs && fs[ParentOf(path)].Dir? && EntryName(BaseOf(path))
  }

  /** Everything beneath `root` hangs from directories. */
  predicate IsTree(fs: Fs, root: string) {
    && root in fs
    && forall k {:trigger HangsFromDir(fs, k)} :: k in fs && Under(root, k) && k != root ==> HangsFromDir(fs, k)
  }

  lemma ParentOfJoin(dir: string, name: string)
    requires Slashless(name)
    ensures ParentOf(Join(dir, name)) == dir
    ensures BaseOf(Join(dir, name)) == name
  {
    var p := Join(dir, name);
    assert p[|dir|] == '/';
    assert forall j :: |dir| < j < |p| ==> p[j] == name[j - |dir| - 1];
    assert LastSlash(p) == |dir|;
  }

  lemma ChildIsJoin(dir: string, path: string)
    requires ChildOf(dir, path)
    ensures path == Join(dir, BaseOf(path))
    ensures ParentOf(path) == dir
    ensures EntryName(BaseOf(path))
  {
    var name := path[|dir| + 1..];
    assert path == Join(dir, name);
    ParentOfJoin(dir, name);
  }

  lemma JoinIsChild(dir: string, name: string)
    requires EntryName(name)
    ensures ChildOf(dir, Join(dir, name))
  {
    assert Join(dir, name)[|dir| + 1..] == name;
  }

  /** A strict descendant of `root` has its parent beneath `root` too. */
  lemma ParentUnder(root: string, path: string)
    requires Under(root, path) && path != root
    requires EntryName(BaseOf(path))
    ensures Under(root, ParentOf(path))
    ensures ChildOf(ParentOf(path), path)
    ensures |ParentOf(path)| < |path|
  {
    var s := LastSlash(path);
    assert path[|root|] == '/' by { assert path[..|root| + 1] == root + "/"; }
    assert |root| <= s;
    if s == |root| {
      assert ParentOf(path) == root by { assert path[..|root| + 1][..|root|] == root; }
    } else {
      assert path[..s][..|root| + 1] == path[..|root| + 1];
    }
    assert path == path[..s] + "/" + path[s + 1..];
  }

  /** Two roots above one name lie one above the other. */
  lemma UnderChain(a: string, b: string, c: string)
    requires Under(a, c) && Under(b, c)
    ensures Under(a, b) || Under(b, a)
  {
    if |a| <= |b| {
      UnderChainOrdered(a, b, c);
    } else {
      UnderChainOrdered(b, a, c);
    }
  }

  lemma UnderChainOrdered(a: string, b: string, c: string)
    requires Under(a, c) && Under(b, c) && |a| <= |b|
    ensures Under(a, b)
  {
    assert c[..|a|] == a by {
      if a != c { assert c[..|a| + 1] == a + "/"; assert c[..|a|] == c[..|a| + 1][..|a|]; }
    }
    assert c[..|b|] == b by {
      if b != c { assert c[..|b| + 1] == b + "/"; assert c[..|b|] == c[..|b| + 1][..|b|]; }
    }
    if |a| < |b| {
      assert c[..|a| + 1] == a + "/";
      assert b[..|a| + 1] == c[..|a| + 1] by { assert c[..|a| + 1] == c[..|b|][..|a| + 1]; }
    }
  }
}
