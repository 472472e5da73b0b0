/** Directory listings in the order os.ReadDir returns them: sorted by name. */
module Listings {
  import opened FileSystem

  predicate LexLe(a: string, b: string) {
    a == "" || (b != "" && (a[0] < b[0] || (a[0] == b[0] && LexLe(a[1..], b[1..]))))
  }

  lemma LexTotal(a: string, b: string)
    ensures LexLe(a, b) || LexLe(b, a)
    ensures LexLe(a, b) && LexLe(b, a) ==> a == b
  {
    if a != "" && b != "" && a[0] == b[0] {
      LexTotal(a[1..], b[1..]);
      assert a == [a[0]] + a[1..] && b == [b[0]] + b[1..];
    }
  }

  lemma LexTransitive(a: string, b: string, c: string)
    requires LexLe(a, b) && LexLe(b, c)
    ensures LexLe(a, c)
  {
    if a != "" && b != "" && c != "" && a[0] == b[0] && b[0] == c[0] {
      LexTransitive(a[1..], b[1..], c[1..]);
    }
  }

  predicate IsLeast(m: string, s: set<string>) {
    m in s && forall x :: x in s ==> LexLe(m, x)
  }

  lemma LeastExists(s: set<string>)
    requires s != {}
    ensures exists m :: IsLeast(m, s)
  {
    var x :| x in s;
    if s == {x} {
      LexTotal(x, x);
      assert IsLeast(x, s);
    } else {
      LeastExists(s - {x});
      var m :| IsLeast(m, s - {x});
      LexTotal(m, x);
      if LexLe(m, x) {
        assert IsLeast(m, s);
      } else {
        LexTotal(x, x);
        forall y | y in s
          ensures LexLe(x, y)
        {
          if y != x { LexTransitive(x, m, y); }
        }
        assert IsLeast(x, s);
      }
    }
  }

  lemma LeastUnique(s: set<string>)
    ensures forall m, m' :: IsLeast(m, s) && IsLeast(m', s) ==> m == m'
  {
    forall m, m' | IsLeast(m, s) && IsLeast(m', s)
      ensures m == m'
    {
      LexTotal(m, m');
    }
  }

  function Least(s: set<string>): (m: string)
    requires s != {}
    ensures IsLeast(m, s)
  {
    LeastExists(s);
    LeastUnique(s);
    var m :| m in s && IsLeast(m, s);
    m
  }

  /** The names in ascending order. */
  function Sorted(s: set<Name>): (r: seq<Name>)
    ensures |r| == |s|
    ensures forall n :: n in r <==> n in s
    ensures forall j, k :: 0 <= j < k < |r| ==> LexLe(r[j], r[k])
  {
    if s == {} then []
    else
      var m := Least(s);
      [m] + Sorted(s - {m})
  }

  /** What a listing says of an entry without following it. */
  datatype DirEntry = DirEntry(name: Name, isDir: bool, isLink: bool)

  datatype Listing = Listed(entries: seq<DirEntry>) | NotListed(err: Errno)

  function EntryOf(t: Tree, d: Ino, name: Name): DirEntry
    requires name in t.Entries(d)
  {
    var i := t.Entries(d)[name];
    DirEntry(name, t.IsDir(i), t.IsLink(i))
  }

  /** os.ReadDir follows symlinks in the path it is given. */
  function ReadDir(t: Tree, p: Path): Listing {
    match Stat(t, p)
    case Found(d, _) =>
      if !t.IsDir(d) then NotListed(ENOTDIR)
      else
        var names := Sorted(t.Entries(d).Keys);
        Listed(seq(|names|, k requires 0 <= k < |names| => assert names[k] in names; EntryOf(t, d, names[k])))
    case r => NotListed(ErrnoOf(r))
  }

  /** `es` are entries of the directory `p` leads to. */
  ghost predicate EntriesAt(t: Tree, p: Path, es: seq<DirEntry>) {
    && Stat(t, p).Found? && t.IsDir(Stat(t, p).ino)
    && forall e :: e in es ==> e.name in t.Entries(Stat(t, p).ino) && e == EntryOf(t, Stat(t, p).ino, e.name)
  }

  lemma ReadDirLists(t: Tree, p: Path)
    ensures ReadDir(t, p).Listed? <==> Stat(t, p).Found? && t.IsDir(Stat(t, p).ino)
    ensures ReadDir(t, p).Listed? ==>
              && EntriesAt(t, p, ReadDir(t, p).entries)
              && forall n :: n in t.Entries(Stat(t, p).ino) ==>
                exists e :: e in ReadDir(t, p).entries && e.name == n
  {
    if ReadDir(t, p).Listed? {
      forall n | n in t.Entries(Stat(t, p).ino)
        ensures exists e :: e in ReadDir(t, p).entries && e.name == n
      {
        ReadDirHas(t, p, n);
      }
    }
  }

  lemma ReadDirHas(t: Tree, p: Path, n: Name)
    requires ReadDir(t, p).Listed? && n in t.Entries(Stat(t, p).ino)
    ensures exists e :: e in ReadDir(t, p).entries && e.name == n
  {
    var names := Sorted(t.Entries(Stat(t, p).ino).Keys);
    var es := ReadDir(t, p).entries;
    var k :| 0 <= k < |names| && names[k] == n;
    assert es[k] in es && es[k].name == n;
  }
}
