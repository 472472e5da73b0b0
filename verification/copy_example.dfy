/** The one kind of destination a copy can lose: a directory symlink on the way to itself. */
module CopyExample {
  import opened Wrappers
  import opened FileSystem
  import opened Resolution
  import opened Attributes
  import opened Directories
  import opened AttributeWalk
  import opened DirectoryTheorems
  import opened Replacement
  import opened WriteFiles
  import opened WriteTheorems
  import opened Modes
  import opened CopyAction
  import opened CopyTheorems

  const ROOT_ATTR := Attr(0x1ED, 0, 0)

  /** /a/x is a symlink to /a. */
  const LOOP_TREE := Tree(
    map[0 := Dir(map["a" := 1], 0), 1 := Dir(map["x" := 2], 0), 2 := Link(Path(true, ["a"]))], 0, 0)
  const LOOP_FS := Fs(LOOP_TREE, map[0 := ROOT_ATTR, 1 := ROOT_ATTR, 2 := ROOT_ATTR], 3)

  /** A task with dest=/a/x and a source named x. */
  const LOOP_ARGS := CopyArgs(Path(true, ["a", "x"]), Some("x"), None, None, NoMode, false, true, false, false, false)

  lemma LoopValid()
    ensures Valid(LOOP_FS) && Acyclic(LOOP_TREE)
  {
    var rank := map[0 := 1, 1 := 0];
    assert Ranked(LOOP_TREE, rank);
  }

  lemma LoopWalks(hops: nat)
    requires hops > 1
    ensures Walk(LOOP_TREE, 0, ["a"], hops, true) == Found(1, hops)
    ensures Walk(LOOP_TREE, 0, ["a", "x"], hops, true) == Found(1, hops - 1)
    ensures Walk(LOOP_TREE, 1, ["x"], hops, true) == Found(1, hops - 1)
    ensures Uses(LOOP_TREE, 0, ["a", "x"], hops, 1, "x")
  {
    var t := LOOP_TREE;
    assert ["a"][1..] == [] && ["x"][1..] == [] && ["a", "x"][1..] == ["x"];
    assert Walk(t, 1, [], hops, true) == Found(1, hops);
    assert Walk(t, 0, ["a"], hops, true) == Walk(t, 1, [], hops, true);
    assert Walk(t, 1, [], hops - 1, true) == Found(1, hops - 1);
    assert Walk(t, 0, ["a"], hops - 1, true) == Walk(t, 1, [], hops - 1, true);
    assert ["a"] + [] == ["a"];
    assert Walk(t, 1, ["x"], hops, true) == Walk(t, 0, ["a"] + ["x"][1..], hops - 1, true);
    assert Walk(t, 0, ["a", "x"], hops, true) == Walk(t, 1, ["x"], hops, true);
    assert Uses(t, 0, ["a", "x"], hops, 1, "x") == Uses(t, 1, ["x"], hops, 1, "x");
  }

  const LOOP_DEST := Path(true, ["a", "x", "x"])

  lemma LoopSite()
    ensures Site(LOOP_TREE, LOOP_DEST, 1) && LOOP_DEST.Parent() == LOOP_ARGS.dest && LOOP_DEST.Base() == "x"
  {
    LoopWalks(MAX_HOPS);
    assert LOOP_DEST.Parent() == LOOP_ARGS.dest;
  }

  /** A temporary name is none of those in /a. */
  lemma LoopTemp(random: string)
    ensures var n := TempName(random);
      && n != "x" && n != "." && n != ".." && n !in LOOP_TREE.Entries(1)
      && Lstat(LOOP_TREE, TempPath(LOOP_DEST, random)) == Missing(1, n)
  {
    var n := TempName(random);
    assert n[0] == '.' && |n| > 2;
    assert n != "x" && n != "." && n != "..";
    LoopSite();
    SiblingPlace(LOOP_TREE, LOOP_DEST, 1, n);
  }

  lemma LoopRename(data: Bytes, w: World)
    ensures var n := TempName(w.chance.random);
      Rename(WithTemp(LOOP_FS, 1, n, data, w.host), TempPath(LOOP_DEST, w.chance.random), LOOP_DEST, {}).Renamed?
  {
    var n := TempName(w.chance.random);
    var s := WithTemp(LOOP_FS, 1, n, data, w.host);
    LoopValid();
    LoopSite();
    LoopTemp(w.chance.random);
    WithTempGrows(LOOP_FS, 1, n, data, w.host);
    SiteGrows(LOOP_TREE, s.tree, LOOP_DEST, 1);
    SiblingPlace(s.tree, LOOP_DEST, 1, n);
    assert s.tree.Entries(1)["x"] == 2 && !s.tree.IsDir(2);
  }

  lemma LoopWrite(data: Bytes, w: World)
    requires w.faults == {}
    ensures var p := WriteParamsOf(LOOP_ARGS, LOOP_DEST, data, w.codec);
      Replace(LOOP_FS, p, data, w.chance, w.host, w.acc, {}).err == None
  {
    LoopValid();
    LoopSite();
    LoopTemp(w.chance.random);
    LoopRename(data, w);
    WithTempGrows(LOOP_FS, 1, TempName(w.chance.random), data, w.host);
  }

  lemma LoopStats(codec: Codec)
    ensures StatRpc(LOOP_TREE, Path(true, ["a", "x"]), codec) == Present(true, "")
    ensures StatRpc(LOOP_TREE, LOOP_DEST, codec) == Present(true, "")
    ensures Effective(LOOP_TREE, LOOP_ARGS) == LOOP_DEST
    ensures LeadsToDir(LOOP_TREE, LOOP_DEST)
  {
    LoopWalks(MAX_HOPS);
    LoopWalks(MAX_HOPS - 1);
    assert LOOP_ARGS.dest.Join("x") == LOOP_DEST;
    ChildResolve(LOOP_TREE, LOOP_ARGS.dest, "x", true);
  }

  lemma LoopRuns(data: Bytes, w: World)
    requires GoodCodec(w.codec) && w.faults == {}
    ensures CopyData(LOOP_FS, data, LOOP_ARGS, w).result == Finished(true, LOOP_DEST)
  {
    var dest := LOOP_DEST;
    LoopStats(w.codec);
    LoopWrite(data, w);
    assert LOOP_ARGS.dest.Join("x") == dest;
    CopyReachesContent(data, dest, w);
    var p := WriteParamsOf(LOOP_ARGS, dest, data, w.codec);
    assert w.codec.dec(p.content) == Some(data);
    assert DigestAt(LOOP_TREE, dest, w.codec) == "";
  }

  lemma CopyReachesContent(data: Bytes, dest: Path, w: World)
    requires GoodCodec(w.codec) && dest == LOOP_ARGS.dest.Join("x")
    requires StatRpc(LOOP_TREE, LOOP_ARGS.dest, w.codec) == Present(true, "") == StatRpc(LOOP_TREE, dest, w.codec)
    ensures CopyData(LOOP_FS, data, LOOP_ARGS, w) == CopyContent(LOOP_FS, data, dest, Present(true, ""), LOOP_ARGS, w)
  {}

  /** The effective destination /a/x/x leads to a directory and goes through the symlink it would
      replace: a run in which no call fails reports a change, and nothing is found there. */
  lemma LoopCopyIsLost(data: Bytes, w: World)
    requires GoodCodec(w.codec) && w.faults == {}
    ensures Valid(LOOP_FS) && Acyclic(LOOP_TREE) && Active(LOOP_FS, LOOP_ARGS)
    ensures var r := CopyData(LOOP_FS, data, LOOP_ARGS, w); var dest := Effective(LOOP_TREE, LOOP_ARGS);
      r.result == Finished(true, dest) && DigestAt(r.fs.tree, dest, w.codec) != w.codec.sha(data)
  {
    LoopValid();
    LoopStats(w.codec);
    LoopWalks(MAX_HOPS);
    LoopRuns(data, w);
    LoopSite();
    CopyDigestExact(LOOP_FS, data, LOOP_ARGS, w);
  }
}
