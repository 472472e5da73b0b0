/** The host's filesystem: an inode table, path resolution with the kernel's symlink budget, and
    the system calls the agent makes.

    Structure (`Tree`) and attributes are two tables over the same inodes, because chmod and
    chown write only the second and path resolution, for an agent running as root, reads only
    the first. An `Ino` stands for the (device, inode) pair. */
module FileSystem {
  import opened Wrappers

  type Ino = nat
  type Name = string
  type Bytes = seq<bv8>

  /** A path in clean form: absolute or relative, and its segments. Path(false, []) is ".". */
  datatype Path = Path(abs: bool, segs: seq<Name>) {
    function Join(name: Name): Path { Path(abs, segs + [name]) }

    function Prefix(k: nat): Path
      requires k <= |segs|
    { Path(abs, segs[..k]) }

    /** filepath.Dir */
    function Parent(): Path { if |segs| == 0 then this else Path(abs, segs[..|segs| - 1]) }

    /** The name a directory would list; a bare "/" or "." has none. */
    function Base(): Name
      requires |segs| > 0
    { segs[|segs| - 1] }

    /** No segment is "." or ".."; filepath.Join would have rewritten those lexically. */
    predicate Clean() { forall k :: 0 <= k < |segs| ==> segs[k] != "." && segs[k] != ".." }
  }

  datatype Kind =
    | Dir(entries: map<Name, Ino>, parent: Ino)
    | File(content: Bytes)
    | Link(target: Path)

  type Perm = n: nat | n < 0x200
  /** Kernel user and group ids; the all-ones value means "leave alone" and is never stored. */
  type Id = n: nat | n < 0xFFFF_FFFF

  datatype Attr = Attr(perm: Perm, uid: Id, gid: Id)
  type Attrs = map<Ino, Attr>

  datatype Tree = Tree(nodes: map<Ino, Kind>, root: Ino, cwd: Ino) {
    predicate IsDir(i: Ino) { i in nodes && nodes[i].Dir? }
    predicate IsLink(i: Ino) { i in nodes && nodes[i].Link? }
    predicate IsFile(i: Ino) { i in nodes && nodes[i].File? }

    function Entries(i: Ino): map<Name, Ino> {
      if IsDir(i) then nodes[i].entries else map[]
    }
  }

  datatype Fs = Fs(tree: Tree, attrs: Attrs, next: Ino)

  datatype Errno = ENOENT | ENOTDIR | ELOOP | EEXIST | EISDIR | EBUSY | EIO

  // ---------------------------------------------------------------- path resolution

  /** Linux gives up after following 40 symbolic links. */
  const MAX_HOPS: nat := 40

  /** Where a path leads: an inode and the unused part of the symlink budget; a name missing
      from an existing directory (the place where a create would put it); or an error. */
  datatype Res = Found(ino: Ino, hops: nat) | Missing(dir: Ino, name: Name) | Fail(err: Errno)

  function Lookup(t: Tree, d: Ino, name: Name): Option<Ino>
    requires t.IsDir(d)
  {
    if name == "." then Some(d)
    else if name == ".." then Some(t.nodes[d].parent)
    else if name in t.nodes[d].entries then Some(t.nodes[d].entries[name])
    else None
  }

  function Origin(t: Tree, abs: bool, cur: Ino): Ino { if abs then t.root else cur }

  /** Resolve `segs` from directory `cur`. A symlink in the last place is followed if `follow`. */
  function Walk(t: Tree, cur: Ino, segs: seq<Name>, hops: nat, follow: bool): Res
    decreases hops, |segs|
  {
    if cur !in t.nodes then Fail(ENOENT)
    else if |segs| == 0 then Found(cur, hops)
    else if !t.IsDir(cur) then Fail(ENOTDIR)
    else
      match Lookup(t, cur, segs[0])
      case None => if |segs| == 1 then Missing(cur, segs[0]) else Fail(ENOENT)
      case Some(next) =>
        if t.IsLink(next) && (|segs| > 1 || follow) then
          if hops == 0 then Fail(ELOOP)
          else
            var target := t.nodes[next].target;
            Walk(t, Origin(t, target.abs, cur), target.segs + segs[1..], hops - 1, follow)
        else
          Walk(t, next, segs[1..], hops, follow)
  }

  function Resolve(t: Tree, p: Path, follow: bool): Res {
    Walk(t, Origin(t, p.abs, t.cwd), p.segs, MAX_HOPS, follow)
  }

  function Stat(t: Tree, p: Path): Res { Resolve(t, p, true) }
  function Lstat(t: Tree, p: Path): Res { Resolve(t, p, false) }

  function ErrnoOf(r: Res): Errno
    requires !r.Found?
  {
    if r.Missing? then ENOENT else r.err
  }

  /** The bytes a reader of `p` gets, if `p` leads to a regular file. */
  function ContentAt(t: Tree, p: Path): Option<Bytes> {
    match Stat(t, p)
    case Found(i, _) => if t.IsFile(i) then Some(t.nodes[i].content) else None
    case _ => None
  }

  /** How far the tree extends another: nothing is lost or retargeted, directories may gain
      names, files may change their bytes, and there may be new inodes. */
  ghost predicate Grows(t: Tree, t': Tree) {
    && t'.root == t.root && t'.cwd == t.cwd
    && (forall i :: i in t.nodes ==> i in t'.nodes && KindGrows(t.nodes[i], t'.nodes[i]))
  }

  ghost predicate KindGrows(k: Kind, k': Kind) {
    match k
    case Dir(e, p) => k'.Dir? && k'.parent == p && (forall n :: n in e ==> n in k'.entries && k'.entries[n] == e[n])
    case File(_) => k'.File?
    case Link(target) => k' == k
  }

  /** A tree in which every name leads to an inode, "." and ".." are not stored as entries, and
      the starting points are directories. */
  ghost predicate Sound(t: Tree) {
    && t.IsDir(t.root) && t.IsDir(t.cwd)
    && (forall d, n :: t.IsDir(d) && n in t.Entries(d) ==> t.Entries(d)[n] in t.nodes && n != "." && n != "..")
  }

  /** The representation invariant: the tree is sound, both tables cover the same inodes, and
      `next` is unused. */
  ghost predicate Valid(fs: Fs) {
    && Sound(fs.tree)
    && fs.tree.nodes.Keys == fs.attrs.Keys
    && (forall i :: i in fs.tree.nodes ==> i < fs.next)
  }

  // ---------------------------------------------------------------- faults and system calls

  /** A system call that fails for reasons outside the model (quota, I/O error, ...). A fault is
      named by the call and the path it is made on, so that any call of an operation can be
      made to fail independently of the others. */
  datatype Call =
    | ChmodCall | ChownCall | MkdirCall | OpenCall | CopyCall | CreateTempCall
    | WriteCall | CloseCall | RenameCall | RemoveCall
  datatype Fault = Fault(call: Call, path: Path)

  /** Mode bits of a newly created node: those of `mode` that are not in the umask. */
  function Masked(mode: nat, umask: nat): (r: nat)
    ensures r <= mode
  {
    if mode == 0 then 0
    else 2 * Masked(mode / 2, umask / 2) + (if mode % 2 == 1 && umask % 2 == 0 then 1 else 0)
  }

  predicate Bit(n: nat, k: nat) { if k == 0 then n % 2 == 1 else Bit(n / 2, k - 1) }

  lemma {:induction false} MaskedBit(mode: nat, umask: nat, k: nat)
    ensures Bit(Masked(mode, umask), k) <==> Bit(mode, k) && !Bit(umask, k)
    decreases k
  {
    var m := Masked(mode, umask);
    if mode == 0 {
      ZeroBit(k);
    } else if k > 0 {
      assert m / 2 == Masked(mode / 2, umask / 2);
      MaskedBit(mode / 2, umask / 2, k - 1);
    }
  }

  lemma ZeroBit(k: nat)
    ensures !Bit(0, k)
  {
    if k > 0 { ZeroBit(k - 1); }
  }

  /** Put a new node under name `n` of directory `d`. */
  function AddNode(fs: Fs, d: Ino, n: Name, kind: Kind, attr: Attr): Fs
    requires fs.tree.IsDir(d)
  {
    var dir := fs.tree.nodes[d];
    Fs(fs.tree.(nodes := fs.tree.nodes[d := Dir(dir.entries[n := fs.next], dir.parent)][fs.next := kind]),
       fs.attrs[fs.next := attr], fs.next + 1)
  }

  function SetContent(fs: Fs, i: Ino, data: Bytes): Fs {
    fs.(tree := fs.tree.(nodes := fs.tree.nodes[i := File(data)]))
  }

  /** Replace the listing of directory `d`. */
  function SetEntries(fs: Fs, d: Ino, entries: map<Name, Ino>): Fs
    requires fs.tree.IsDir(d)
  {
    fs.(tree := fs.tree.(nodes := fs.tree.nodes[d := Dir(entries, fs.tree.nodes[d].parent)]))
  }

  /** The name under which `p` is found in its parent directory, after resolving the parent. */
  datatype Place = Place(dir: Ino, name: Name) | NoPlace(err: Errno)

  function PlaceOf(t: Tree, p: Path): Place {
    if |p.segs| == 0 then NoPlace(EBUSY)
    else
      match Stat(t, p.Parent())
      case Found(d, _) =>
        if !t.IsDir(d) then NoPlace(ENOTDIR)
        else if p.Base() == "." || p.Base() == ".." then NoPlace(EBUSY)
        else Place(d, p.Base())
      case r => NoPlace(ErrnoOf(r))
  }
}
