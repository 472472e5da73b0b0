/** What writing a file does to the host, at every moment and whatever fails. */
module WriteTheorems {
  import opened Wrappers
  import opened FileSystem
  import opened Resolution
  import opened Attributes
  import opened Directories
  import opened AttributeWalk
  import opened DirectoryTheorems
  import opened Replacement
  import opened WriteFiles

  // ---------------------------------------------------------------- where things are

  /** The destination's directory exists and is `d`. */
  ghost predicate Site(t: Tree, dest: Path, d: Ino) {
    && |dest.segs| > 0 && dest.Clean()
    && LeadsToDir(t, dest.Parent()) && Stat(t, dest.Parent()).ino == d
  }

  lemma SiblingPlace(t: Tree, dest: Path, d: Ino, name: Name)
    requires Site(t, dest, d) && name != "." && name != ".."
    ensures PlaceOf(t, dest.Parent().Join(name)) == Place(d, name)
    ensures PlaceOf(t, dest) == Place(d, dest.Base())
    ensures dest.Parent().Join(dest.Base()) == dest
    ensures forall follow ::
        Resolve(t, dest.Parent().Join(name), follow) == Walk(t, d, [name], Stat(t, dest.Parent()).hops, follow)
  {
    assert dest.Parent().Join(name).Parent() == dest.Parent();
    assert dest.Parent().Join(name).Base() == name;
    assert dest.segs == dest.Parent().segs + [dest.Base()];
    assert dest.Base() != "." && dest.Base() != "..";
    ChildResolve(t, dest.Parent(), name, true);
    ChildResolve(t, dest.Parent(), name, false);
  }

  lemma SiteGrows(t: Tree, t': Tree, dest: Path, d: Ino)
    requires Site(t, dest, d) && Grows(t, t')
    ensures Site(t', dest, d)
  {
    GrowsKeepsResolve(t, t', dest.Parent(), true);
    assert KindGrows(t.nodes[d], t'.nodes[d]);
  }

  /** An existing destination lies in an existing directory. */
  lemma ExistingHasSite(t: Tree, dest: Path)
    requires |dest.segs| > 0 && dest.Clean() &&
        (Stat(t, dest).Found? || Stat(t, dest).Missing? || Lstat(t, dest).Found?)
    ensures LeadsToDir(t, dest.Parent()) && Site(t, dest, Stat(t, dest.Parent()).ino)
  {
    assert dest.segs == dest.Parent().segs + [dest.Base()];
    assert dest == dest.Parent().Join(dest.Base());
    if Lstat(t, dest).Found? {
      ParentResolves(t, dest.Parent(), dest.Base(), false);
    } else {
      ParentResolves(t, dest.Parent(), dest.Base(), true);
    }
  }

  // ---------------------------------------------------------------- the temporary file

  function TempName(random: string): Name { ".fastagent-" + random }

  function TempAttr(host: Host): Attr { Attr(Masked(MODE_TEMP, host.umask), host.uid, host.gid) }

  /** The directory has one more name, the temporary file with some bytes in it. */
  function WithTemp(fs: Fs, d: Ino, n: Name, data: Bytes, host: Host): Fs
    requires fs.tree.IsDir(d)
  {
    AddNode(fs, d, n, File(data), TempAttr(host))
  }

  /** The temporary file has been unlinked; its inode is left over without a name. */
  function WithOrphan(fs: Fs, data: Bytes, host: Host): Fs {
    Fs(fs.tree.(nodes := fs.tree.nodes[fs.next := File(data)]), fs.attrs[fs.next := TempAttr(host)], fs.next + 1)
  }

  /** The name `base` now leads to a new file with the data; nothing else is different. */
  ghost predicate Swapped(fs: Fs, s: Fs, d: Ino, base: Name, data: Bytes, host: Host) {
    && Replaces(fs.tree, s.tree, d, base, fs.next)
    && s.tree.nodes[fs.next] == File(data)
    && s.attrs == fs.attrs[fs.next := TempAttr(host)] && s.next == fs.next + 1
  }

  lemma WithTempGrows(fs: Fs, d: Ino, n: Name, data: Bytes, host: Host)
    requires Valid(fs) && fs.tree.IsDir(d) && n !in fs.tree.Entries(d)
    ensures Grows(fs.tree, WithTemp(fs, d, n, data, host).tree)
    ensures SetContent(WithTemp(fs, d, n, [], host), fs.next, data) == WithTemp(fs, d, n, data, host)
  {
    AddNodeGrows(fs, d, n, File(data), TempAttr(host));
  }

  lemma TempUnlinked(fs: Fs, dest: Path, d: Ino, data: Bytes, chance: Chance, host: Host, faults: set<Fault>)
    requires Valid(fs) && Site(fs.tree, dest, d) && TempName(chance.random) !in fs.tree.Entries(d)
    ensures var n := TempName(chance.random); var tmp := TempPath(dest, chance.random);
      Unlink(WithTemp(fs, d, n, data, host), tmp, faults) ==
        if Fault(RemoveCall, tmp) in faults then WithTemp(fs, d, n, data, host) else WithOrphan(fs, data, host)
  {
    var n := TempName(chance.random);
    var s := WithTemp(fs, d, n, data, host);
    WithTempGrows(fs, d, n, data, host);
    SiteGrows(fs.tree, s.tree, dest, d);
    SiblingPlace(s.tree, dest, d, n);
    UnlinkedIsOrphan(fs, d, n, data, host);
  }

  lemma UnlinkedIsOrphan(fs: Fs, d: Ino, n: Name, data: Bytes, host: Host)
    requires Valid(fs) && fs.tree.IsDir(d) && n !in fs.tree.Entries(d)
    ensures var s := WithTemp(fs, d, n, data, host);
      && s.tree.IsDir(d) && n in s.tree.Entries(d) && !s.tree.IsDir(s.tree.Entries(d)[n])
      && SetEntries(s, d, s.tree.Entries(d) - {n}) == WithOrphan(fs, data, host)
  {
    var s := WithTemp(fs, d, n, data, host);
    assert d != fs.next;
    assert s.tree.Entries(d) - {n} == fs.tree.Entries(d);
    assert SetEntries(s, d, fs.tree.Entries(d)).tree.nodes == WithOrphan(fs, data, host).tree.nodes;
  }

  lemma TempRenamed(fs: Fs, dest: Path, d: Ino, data: Bytes, chance: Chance, host: Host, faults: set<Fault>)
    requires Valid(fs) && Site(fs.tree, dest, d) && TempName(chance.random) !in fs.tree.Entries(d)
    requires var s := WithTemp(fs, d, TempName(chance.random), data, host);
      Rename(s, TempPath(dest, chance.random), dest, faults).Renamed?
    ensures var s := WithTemp(fs, d, TempName(chance.random), data, host);
      Swapped(fs, Rename(s, TempPath(dest, chance.random), dest, faults).fs, d, dest.Base(), data, host)
    ensures dest.Base() in fs.tree.Entries(d) ==> !fs.tree.IsDir(fs.tree.Entries(d)[dest.Base()])
  {
    var n := TempName(chance.random);
    var s := WithTemp(fs, d, n, data, host);
    WithTempGrows(fs, d, n, data, host);
    SiteGrows(fs.tree, s.tree, dest, d);
    SiblingPlace(s.tree, dest, d, n);
    assert s.tree.Entries(d) - {n} == fs.tree.Entries(d);
    assert fs.next !in fs.tree.nodes;
    var base := dest.Base();
    assert base == dest.segs[|dest.segs| - 1];
    var r := Rename(s, TempPath(dest, chance.random), dest, faults).fs;
    assert r.tree.nodes[d] == Dir(fs.tree.Entries(d)[base := fs.next], fs.tree.nodes[d].parent);
    if base in fs.tree.Entries(d) && base != n {
      assert s.tree.Entries(d)[base] == fs.tree.Entries(d)[base];
    }
  }

  /** Everything that can be seen of WriteByRename: three states or none. */
  ghost predicate RenameTrace(fs: Fs, dest: Path, d: Ino, data: Bytes, chance: Chance, host: Host,
                              faults: set<Fault>, w: Steps)
    requires |dest.segs| > 0
  {
    var n := TempName(chance.random);
    if |w.states| == 0 then w.err.Some?
    else
      && n !in fs.tree.Entries(d) && fs.tree.IsDir(d)
      && |w.states| == 3
      && w.states[0] == WithTemp(fs, d, n, [], host)
      && if w.err.None? then
           w.states[1] == WithTemp(fs, d, n, data, host) && Swapped(fs, w.states[2], d, dest.Base(), data, host)
         else
           exists part :: w.states[1] == WithTemp(fs, d, n, part, host) &&
             w.states[2] == if Fault(RemoveCall, TempPath(dest, chance.random)) in faults
                            then w.states[1] else WithOrphan(fs, part, host)
  }

  lemma MissingName(t: Tree, d: Ino, n: Name, hops: nat)
    requires t.IsDir(d) && n != "." && n != ".."
    ensures Walk(t, d, [n], hops, false).Missing? ==> n !in t.Entries(d)
  {
    if n in t.Entries(d) {
      var next := t.Entries(d)[n];
      assert Walk(t, d, [n], hops, false) == Walk(t, next, [], hops, false);
    }
  }

  lemma WriteByRenameTrace(fs: Fs, dest: Path, d: Ino, data: Bytes, chance: Chance, host: Host, faults: set<Fault>)
    requires Valid(fs) && Site(fs.tree, dest, d)
    ensures RenameTrace(fs, dest, d, data, chance, host, faults, WriteByRename(fs, dest, data, chance, host, faults))
  {
    var n := TempName(chance.random);
    var tmp := TempPath(dest, chance.random);
    var w := WriteByRename(fs, dest, data, chance, host, faults);
    TempIsFree(fs, dest, d, data, chance, host, faults);
    if |w.states| > 0 {
      var part := if Fault(WriteCall, tmp) in faults then Short(data, chance.short) else data;
      WithTempGrows(fs, d, n, part, host);
      TempUnlinked(fs, dest, d, part, chance, host, faults);
      if w.err.None? {
        TempRenamed(fs, dest, d, data, chance, host, faults);
      } else {
        assert w.states[1] == WithTemp(fs, d, n, part, host);
      }
    }
  }

  /** A write that got anywhere found the temporary name free in the destination's directory. */
  lemma TempIsFree(fs: Fs, dest: Path, d: Ino, data: Bytes, chance: Chance, host: Host, faults: set<Fault>)
    requires Valid(fs) && Site(fs.tree, dest, d)
    ensures |WriteByRename(fs, dest, data, chance, host, faults).states| > 0 ==>
              TempName(chance.random) !in fs.tree.Entries(d)
              && Lstat(fs.tree, TempPath(dest, chance.random)) == Missing(d, TempName(chance.random))
  {
    var n := TempName(chance.random);
    assert |n| > 2;
    SiblingPlace(fs.tree, dest, d, n);
    assert Lstat(fs.tree, TempPath(dest, chance.random)) ==
        Walk(fs.tree, d, [n], Stat(fs.tree, dest.Parent()).hops, false);
    MissingName(fs.tree, d, n, Stat(fs.tree, dest.Parent()).hops);
  }

  // ---------------------------------------------------------------- atomicity of the rename path

  /** Every path that led to a file still leads to the same bytes. */
  ghost predicate SameBytes(t: Tree, t': Tree) {
    forall q :: ContentAt(t, q).Some? ==> ContentAt(t', q) == ContentAt(t, q)
  }

  lemma GrowsSameBytes(t: Tree, t': Tree)
    requires Grows(t, t') && forall i :: t.IsFile(i) ==> t'.nodes[i] == t.nodes[i]
    ensures SameBytes(t, t')
  {
    forall q | ContentAt(t, q).Some?
      ensures ContentAt(t', q) == ContentAt(t, q)
    {
      GrowsKeepsResolve(t, t', q, true);
    }
  }

  lemma WithTempSameBytes(fs: Fs, d: Ino, n: Name, data: Bytes, host: Host)
    requires Valid(fs) && fs.tree.IsDir(d) && n !in fs.tree.Entries(d)
    ensures SameBytes(fs.tree, WithTemp(fs, d, n, data, host).tree)
  {
    WithTempGrows(fs, d, n, data, host);
    GrowsSameBytes(fs.tree, WithTemp(fs, d, n, data, host).tree);
  }

  lemma OrphanSameBytes(fs: Fs, data: Bytes, host: Host)
    requires Valid(fs)
    ensures Grows(fs.tree, WithOrphan(fs, data, host).tree)
    ensures SameBytes(fs.tree, WithOrphan(fs, data, host).tree)
  {
    var t' := WithOrphan(fs, data, host).tree;
    forall i | i in fs.tree.nodes
      ensures i in t'.nodes && KindGrows(fs.tree.nodes[i], t'.nodes[i])
    {
      assert i < fs.next;
    }
    GrowsSameBytes(fs.tree, t');
  }

  /** No file on the host differs from `fs`: every path that led to a file leads to the same bytes,
      every attribute is the old one, and the only new name in `d` is `n`. */
  ghost predicate Harmless(fs: Fs, s: Fs, d: Ino, n: Name) {
    && SameBytes(fs.tree, s.tree)
    && (forall i :: i in fs.attrs ==> i in s.attrs && s.attrs[i] == fs.attrs[i])
    && s.tree.Entries(d) - {n} == fs.tree.Entries(d)
  }

  lemma TempHarmless(fs: Fs, d: Ino, n: Name, data: Bytes, host: Host)
    requires Valid(fs) && fs.tree.IsDir(d) && n !in fs.tree.Entries(d)
    ensures Harmless(fs, WithTemp(fs, d, n, data, host), d, n)
    ensures Harmless(fs, WithOrphan(fs, data, host), d, n)
  {
    WithTempSameBytes(fs, d, n, data, host);
    OrphanSameBytes(fs, data, host);
    assert d != fs.next;
    assert WithTemp(fs, d, n, data, host).tree.Entries(d) - {n} == fs.tree.Entries(d);
    assert fs.tree.Entries(d) - {n} == fs.tree.Entries(d);
  }

  /** Until the rename, after each call and after every failure, no file on the host has changed
      and the only new name is the temporary one. After a failed write that name is gone too, if
      the clean-up unlink worked. */
  lemma BeforeRename(fs: Fs, dest: Path, d: Ino, data: Bytes, chance: Chance, host: Host, faults: set<Fault>)
    requires Valid(fs) && Site(fs.tree, dest, d)
    ensures var w := WriteByRename(fs, dest, data, chance, host, faults);
      forall k :: 0 <= k < |w.states| && (k < 2 || w.err.Some?) ==>
          Harmless(fs, w.states[k], d, TempName(chance.random))
    ensures var w := WriteByRename(fs, dest, data, chance, host, faults);
      w.err.Some? && Fault(RemoveCall, TempPath(dest, chance.random)) !in faults ==>
        w.Last(fs).tree.Entries(d) == fs.tree.Entries(d)
  {
    WriteByRenameTrace(fs, dest, d, data, chance, host, faults);
    TraceHarmless(fs, dest, d, data, chance, host, faults, WriteByRename(fs, dest, data, chance, host, faults));
  }

  lemma TraceHarmless(fs: Fs, dest: Path, d: Ino, data: Bytes, chance: Chance, host: Host, faults: set<Fault>, w: Steps)
    requires Valid(fs) && Site(fs.tree, dest, d) && RenameTrace(fs, dest, d, data, chance, host, faults, w)
    ensures forall k :: 0 <= k < |w.states| && (k < 2 || w.err.Some?) ==>
        Harmless(fs, w.states[k], d, TempName(chance.random))
    ensures w.err.Some? && Fault(RemoveCall, TempPath(dest, chance.random)) !in faults ==>
              w.Last(fs).tree.Entries(d) == fs.tree.Entries(d)
  {
    var n := TempName(chance.random);
    if |w.states| > 0 {
      TempHarmless(fs, d, n, [], host);
      if w.err.None? {
        TempHarmless(fs, d, n, data, host);
      } else {
        FailureHarmless(fs, dest, d, data, chance, host, faults, w);
      }
    }
  }

  lemma FailureHarmless(fs: Fs, dest: Path, d: Ino, data: Bytes, chance: Chance, host: Host, faults: set<Fault>,
                        w: Steps)
    requires Valid(fs) && Site(fs.tree, dest, d) && RenameTrace(fs, dest, d, data, chance, host, faults, w)
    requires w.err.Some? && |w.states| > 0
    ensures Harmless(fs, w.states[1], d, TempName(chance.random)) &&
        Harmless(fs, w.states[2], d, TempName(chance.random))
    ensures Fault(RemoveCall, TempPath(dest, chance.random)) !in faults ==>
              w.Last(fs).tree.Entries(d) == fs.tree.Entries(d)
  {
    var n := TempName(chance.random);
    var part :| w.states[1] == WithTemp(fs, d, n, part, host) &&
      w.states[2] == if Fault(RemoveCall, TempPath(dest, chance.random)) in faults
                     then w.states[1] else WithOrphan(fs, part, host);
    TempHarmless(fs, d, n, part, host);
    assert d != fs.next;
  }

  /** The way to the destination's directory leads through the very entry a rename would replace. */
  ghost predicate OnItsOwnWay(t: Tree, dest: Path) {
    && |dest.segs| > 0 && LeadsToDir(t, dest.Parent())
    && PathUses(t, dest.Parent(), Stat(t, dest.Parent()).ino, dest.Base())
  }

  lemma OnItsOwnWayGrows(t: Tree, t': Tree, dest: Path)
    requires Sound(t) && Grows(t, t') && |dest.segs| > 0 && LeadsToDir(t, dest.Parent())
    ensures LeadsToDir(t', dest.Parent()) && Stat(t', dest.Parent()) == Stat(t, dest.Parent())
    ensures OnItsOwnWay(t', dest) <==> OnItsOwnWay(t, dest)
  {
    var p := dest.Parent();
    var d := Stat(t, p).ino;
    GrowsKeepsResolve(t, t', p, true);
    assert KindGrows(t.nodes[d], t'.nodes[d]);
    UsesGrows(t, t', Origin(t, p.abs, t.cwd), p.segs, MAX_HOPS, d, dest.Base());
  }

  /** The rename is visible under the destination exactly if the destination's directory is not
      itself reached through the entry that is replaced. */
  lemma AfterRename(fs: Fs, s: Fs, dest: Path, d: Ino, data: Bytes, host: Host)
    requires Valid(fs) && Site(fs.tree, dest, d) && Swapped(fs, s, d, dest.Base(), data, host)
    ensures !PathUses(fs.tree, dest.Parent(), d, dest.Base()) ==>
              Site(s.tree, dest, d) && Stat(s.tree, dest).Found? && Stat(s.tree, dest).ino == fs.next
    ensures ContentAt(s.tree, dest) == Some(data) <==> !PathUses(fs.tree, dest.Parent(), d, dest.Base())
    ensures PathUses(fs.tree, dest.Parent(), d, dest.Base()) ==> !Stat(s.tree, dest).Found?
  {
    var p := dest.Parent();
    var start := Origin(fs.tree, p.abs, fs.tree.cwd);
    assert dest == p.Join(dest.Base());
    if PathUses(fs.tree, p, d, dest.Base()) {
      ReplaceBreaks(fs.tree, s.tree, d, dest.Base(), fs.next, start, p.segs, MAX_HOPS);
      if Stat(s.tree, dest).Found? { ParentResolves(s.tree, p, dest.Base(), true); }
    } else {
      ReplaceKeeps(fs.tree, s.tree, d, dest.Base(), fs.next, start, p.segs, MAX_HOPS);
      ChildResolve(s.tree, p, dest.Base(), true);
    }
  }

  /** A destination that is not a directory is never on the way to its own directory. */
  lemma FileIsNotOnTheWay(t: Tree, dest: Path, d: Ino)
    requires Site(t, dest, d)
    requires Stat(t, dest) != Fail(ELOOP) && (Stat(t, dest).Found? ==> !t.IsDir(Stat(t, dest).ino))
    ensures !PathUses(t, dest.Parent(), d, dest.Base())
  {
    var p := dest.Parent();
    assert dest == p.Join(dest.Base());
    ChildResolve(t, p, dest.Base(), true);
    NotThroughItself(t, d, dest.Base(), Stat(t, p).hops, Origin(t, p.abs, t.cwd), p.segs, MAX_HOPS);
  }
}
