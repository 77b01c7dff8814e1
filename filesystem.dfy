/** The local filesystem as the program sees it: a set of directory paths and a map
    from file path to file contents. Paths are plain strings; no cleaning, no
    symbolic links, no permissions. Whether an operation fails is decided by the
    caller (a fault flag), since the causes (a full disk, a file in the way, missing
    rights) lie outside the model. */
module Filesystem {

  import opened Wrappers

  newtype byte = x: int | 0 <= x < 256

  datatype Disk = Disk(dirs: set<string>, files: map<string, seq<byte>>)

  /** `os.Stat(p)` succeeds: something, file or directory, is at `p`. */
  predicate Exists(d: Disk, p: string)
  {
    p in d.dirs || p in d.files
  }

  /** The proper ancestors of path `p`: each prefix that ends just before a slash. */
  function Ancestors(p: string): (a: set<string>)
    ensures forall q :: q in a ==> 0 < |q| < |p| && q == p[..|q|] && p[|q|] == '/'
    ensures forall i :: 0 < i < |p| && p[i] == '/' ==> p[..i] in a
  {
    set i | 0 < i < |p| && p[i] == '/' :: p[..i]
  }

  /** The disk after a successful `os.MkdirAll(p, ...)`: `p` and all its ancestors are
      directories; no file changes. */
  function MakeDirs(d: Disk, p: string): (r: Disk)
    ensures p in r.dirs && r.files == d.files
    ensures d.dirs <= r.dirs && r.dirs - d.dirs <= Ancestors(p) + {p}
    ensures Ancestors(p) <= r.dirs
  {
    Disk(d.dirs + Ancestors(p) + {p}, d.files)
  }

  /** The disk after a successful `os.Create(p)`: the file exists and is empty
      (an existing file is truncated). */
  function CreateFile(d: Disk, p: string): (r: Disk)
    ensures r.dirs == d.dirs && p in r.files && r.files[p] == []
    ensures forall q :: q != p ==> (q in r.files <==> q in d.files)
    ensures forall q :: q != p && q in d.files ==> r.files[q] == d.files[q]
  {
    Disk(d.dirs, d.files[p := []])
  }

  /** The disk after writing `bytes` to the end of the open file `p`. */
  function AppendFile(d: Disk, p: string, bytes: seq<byte>): (r: Disk)
    requires p in d.files
    ensures r.dirs == d.dirs && r.files.Keys == d.files.Keys
    ensures r.files[p] == d.files[p] + bytes
    ensures forall q :: q != p && q in d.files ==> r.files[q] == d.files[q]
  {
    Disk(d.dirs, d.files[p := d.files[p] + bytes])
  }

  /** How many bytes `io.Copy` moves before it stops: all of them, or, when the
      copy fails after `n` bytes, the smaller of `n` and the body's length. */
  function Copied(length: nat, failAfter: Option<nat>): (n: nat)
    ensures n <= length
    ensures failAfter.None? ==> n == length
    ensures failAfter.Some? ==> n <= failAfter.value && (n == length || n == failAfter.value)
  {
    match failAfter
    case None => length
    case Some(k) => if k < length then k else length
  }

  /** The filesystem the program writes into. */
  class FileSystem {
    var dirs: set<string>
    var files: map<string, seq<byte>>

    function State(): Disk
      reads this
    {
      Disk(dirs, files)
    }

    constructor (initial: Disk)
      ensures State() == initial
    {
      dirs := initial.dirs;
      files := initial.files;
    }

    /** `os.Stat(p)`; `found` is false when Stat reports an error. */
    method Stat(p: string) returns (found: bool)
      ensures found == Exists(State(), p)
    {
      found := p in dirs || p in files;
    }

    /** `os.MkdirAll(p, os.ModePerm)`: creates `p` and its missing ancestors, and
        succeeds also when they already exist. */
    method MkdirAll(p: string, fault: bool) returns (ok: bool)
      modifies this
      ensures ok == !fault
      ensures State() == if ok then MakeDirs(old(State()), p) else old(State())
    {
      ok := !fault;
      if ok {
        dirs := dirs + Ancestors(p) + {p};
      }
    }

    /** `os.Create(p)`: creates or truncates the file `p`. */
    method Create(p: string, fault: bool) returns (ok: bool)
      modifies this
      ensures ok == !fault
      ensures State() == if ok then CreateFile(old(State()), p) else old(State())
    {
      ok := !fault;
      if ok {
        files := files[p := []];
      }
    }

    /** `io.Copy(file, body)` into the open file `p`: returns the number of bytes
        written and whether the copy finished; a failed copy leaves the bytes it
        already wrote in the file. */
    method Copy(p: string, body: seq<byte>, failAfter: Option<nat>) returns (size: nat, ok: bool)
      requires p in files
      modifies this
      ensures ok == failAfter.None?
      ensures size == Copied(|body|, failAfter)
      ensures State() == AppendFile(old(State()), p, body[..size])
    {
      size := Copied(|body|, failAfter);
      ok := failAfter.None?;
      files := files[p := files[p] + body[..size]];
    }
  }
}
