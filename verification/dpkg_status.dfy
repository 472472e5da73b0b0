/** Reading the installed packages out of dpkg's status file, line by line. */
module DpkgStatus {
  import opened Text

  const PACKAGE := "Package: "
  const STATUS := "Status: "
  const INSTALLED := " installed"

  predicate IsPackageLine(line: string) { PACKAGE <= line }

  /** The Status test is only made on lines that are not Package lines. */
  predicate IsStatusLine(line: string) { !IsPackageLine(line) && STATUS <= line }

  // ---------------------------------------------------------------- the specification

  /** Blank lines end a stanza; every other line belongs to the stanza it stands in. */
  function Split(lines: seq<string>): (r: seq<seq<string>>)
    ensures |r| > 0
  {
    if |lines| == 0 then [[]]
    else
      var r := Split(lines[..|lines| - 1]);
      var line := lines[|lines| - 1];
      if line == "" then r + [[]] else r[..|r| - 1] + [r[|r| - 1] + [line]]
  }

  /** Line `p` is the stanza's last Package line. */
  ghost predicate LastPackage(stanza: seq<string>, p: int) {
    0 <= p < |stanza| && IsPackageLine(stanza[p]) && forall j :: p < j < |stanza| ==> !IsPackageLine(stanza[j])
  }

  /** Line `q` is the last Status line after `p`. */
  ghost predicate LastStatusAfter(stanza: seq<string>, p: int, q: int) {
    0 <= p < q < |stanza| && IsStatusLine(stanza[q]) && forall j :: q < j < |stanza| ==> !IsStatusLine(stanza[j])
  }

  /** The stanza's last Package line names the package, and the last Status line after it says
      that it is installed. */
  ghost predicate Installs(stanza: seq<string>, name: string) {
    && name != ""
    && exists p, q :: LastPackage(stanza, p) && stanza[p] == PACKAGE + name
                      && LastStatusAfter(stanza, p, q) && Contains(stanza[q], INSTALLED)
  }

  ghost predicate Lists(stanzas: seq<seq<string>>, name: string) {
    exists k :: 0 <= k < |stanzas| && Installs(stanzas[k], name)
  }

  // ---------------------------------------------------------------- the scanner's state

  /** What `currentPkg` holds after the lines of a stanza. */
  function CurrentPackage(stanza: seq<string>): string {
    if |stanza| == 0 then ""
    else
      var line := stanza[|stanza| - 1];
      if IsPackageLine(line) then line[|PACKAGE|..] else CurrentPackage(stanza[..|stanza| - 1])
  }

  /** What `installed` holds after the lines of a stanza. */
  function CurrentInstalled(stanza: seq<string>): bool {
    if |stanza| == 0 then false
    else
      var line := stanza[|stanza| - 1];
      if IsPackageLine(line) then false
      else if IsStatusLine(line) then Contains(line, INSTALLED)
      else CurrentInstalled(stanza[..|stanza| - 1])
  }

  lemma {:induction false} PackageIsLast(stanza: seq<string>) returns (p: int)
    ensures p == -1 ==> CurrentPackage(stanza) == "" && forall j :: 0 <= j < |stanza| ==> !IsPackageLine(stanza[j])
    ensures p != -1 ==> LastPackage(stanza, p) && stanza[p] == PACKAGE + CurrentPackage(stanza)
  {
    p := -1;
    if |stanza| > 0 {
      var n := |stanza| - 1;
      if IsPackageLine(stanza[n]) { return n; }
      p := PackageIsLast(stanza[..n]);
      if p != -1 { assert stanza[..n][p] == stanza[p]; }
      assert forall j :: 0 <= j < n ==> stanza[..n][j] == stanza[j];
    }
  }

  lemma {:induction false} InstalledWitness(stanza: seq<string>, p: int) returns (q: int)
    requires LastPackage(stanza, p) && CurrentInstalled(stanza)
    ensures LastStatusAfter(stanza, p, q) && Contains(stanza[q], INSTALLED)
  {
    var n := |stanza| - 1;
    if IsStatusLine(stanza[n]) { return n; }
    assert LastPackage(stanza[..n], p);
    q := InstalledWitness(stanza[..n], p);
  }

  lemma {:induction false} InstalledFromWitness(stanza: seq<string>, p: int, q: int)
    requires LastPackage(stanza, p) && LastStatusAfter(stanza, p, q)
    ensures CurrentInstalled(stanza) == Contains(stanza[q], INSTALLED)
  {
    var n := |stanza| - 1;
    if q < n {
      assert LastPackage(stanza[..n], p) && LastStatusAfter(stanza[..n], p, q);
      InstalledFromWitness(stanza[..n], p, q);
    }
  }

  /** The two scanner variables at the end of a stanza say exactly what the stanza installs. */
  lemma StanzaState(stanza: seq<string>, name: string)
    ensures Installs(stanza, name) <==> name != "" && CurrentPackage(stanza) == name && CurrentInstalled(stanza)
  {
    var p := PackageIsLast(stanza);
    if p != -1 {
      assert stanza[p][|PACKAGE|..] == CurrentPackage(stanza);
      if CurrentInstalled(stanza) {
        var q := InstalledWitness(stanza, p);
      }
    }
    if Installs(stanza, name) {
      var p', q :| LastPackage(stanza, p') && stanza[p'] == PACKAGE + name
                   && LastStatusAfter(stanza, p', q) && Contains(stanza[q], INSTALLED);
      assert p == p';
      assert (PACKAGE + name)[|PACKAGE|..] == name;
      InstalledFromWitness(stanza, p, q);
    }
  }

  // ---------------------------------------------------------------- the scanner

  /** The set of packages that are installed according to the lines of the status file. */
  function InstalledPackages(lines: seq<string>): set<string> { InstalledIn(Split(lines)) }

  function InstalledIn(stanzas: seq<seq<string>>): set<string> {
    if |stanzas| == 0 then {}
    else
      var n := |stanzas| - 1;
      var name := CurrentPackage(stanzas[n]);
      InstalledIn(stanzas[..n]) + if name != "" && CurrentInstalled(stanzas[n]) then {name} else {}
  }

  lemma {:induction false} InstalledInLists(stanzas: seq<seq<string>>, name: string)
    ensures name in InstalledIn(stanzas) <==> Lists(stanzas, name)
  {
    if |stanzas| > 0 {
      var n := |stanzas| - 1;
      InstalledInLists(stanzas[..n], name);
      ListsSnoc(stanzas, name);
      StanzaState(stanzas[n], name);
    }
  }

  lemma ListedAre(lines: seq<string>, pkgs: set<string>)
    requires forall name :: name in pkgs <==> Lists(Split(lines), name)
    ensures pkgs == InstalledPackages(lines)
  {
    forall name
      ensures name in pkgs <==> name in InstalledPackages(lines)
    {
      InstalledInLists(Split(lines), name);
    }
  }

  /** The loop of loadInstalledPackages: its result is the set of packages the specification
      lists, for every sequence of lines, with or without a blank line at the end. */
  method LoadInstalledPackages(lines: seq<string>) returns (pkgs: set<string>)
    ensures forall name :: name in pkgs <==> Lists(Split(lines), name)
    ensures pkgs == InstalledPackages(lines)
  {
    pkgs := {};
    var currentPkg, installed := "", false;
    for k := 0 to |lines|
      invariant Scanned(lines[..k], currentPkg, installed, pkgs)
    {
      var line := lines[k];
      assert lines[..k + 1] == lines[..k] + [line];
      if IsPackageLine(line) {
        ScannedLine(lines[..k], line, currentPkg, installed, pkgs);
        currentPkg, installed := line[|PACKAGE|..], false;
      } else if STATUS <= line {
        ScannedLine(lines[..k], line, currentPkg, installed, pkgs);
        installed := Contains(line, INSTALLED);
      } else if line == "" {
        ScannedBlank(lines[..k], currentPkg, installed, pkgs);
        if currentPkg != "" && installed { pkgs := pkgs + {currentPkg}; }
        currentPkg, installed := "", false;
      } else {
        ScannedLine(lines[..k], line, currentPkg, installed, pkgs);
      }
    }
    assert lines[..|lines|] == lines;
    ScanDecides(Split(lines));
    if currentPkg != "" && installed { pkgs := pkgs + {currentPkg}; }
    ListedAre(lines, pkgs);
  }

  /** The scanner's variables after some lines: two about the open stanza, one about the closed ones. */
  ghost predicate Scanned(lines: seq<string>, currentPkg: string, installed: bool, pkgs: set<string>) {
    var r := Split(lines);
    && currentPkg == CurrentPackage(r[|r| - 1]) && installed == CurrentInstalled(r[|r| - 1])
    && forall name :: name in pkgs <==> Lists(r[..|r| - 1], name)
  }

  lemma ScannedLine(lines: seq<string>, line: string, currentPkg: string, installed: bool, pkgs: set<string>)
    requires Scanned(lines, currentPkg, installed, pkgs) && line != ""
    ensures Scanned(lines + [line],
                    if IsPackageLine(line) then line[|PACKAGE|..] else currentPkg,
                    if IsPackageLine(line) then false
                    else if STATUS <= line then Contains(line, INSTALLED) else installed,
                    pkgs)
  {
    var r := Split(lines);
    SplitLine(lines, line);
    InitAndLast(r[..|r| - 1], r[|r| - 1] + [line]);
    ScanLine(r[|r| - 1], line);
  }

  lemma ScannedBlank(lines: seq<string>, currentPkg: string, installed: bool, pkgs: set<string>)
    requires Scanned(lines, currentPkg, installed, pkgs)
    ensures Scanned(lines + [""], "", false, if currentPkg != "" && installed then pkgs + {currentPkg} else pkgs)
  {
    var r := Split(lines);
    SplitLine(lines, "");
    InitAndLast(r, []);
    ScanDecides(r);
  }

  /** What a further line does to the scanner's variables. */
  lemma ScanLine(stanza: seq<string>, line: string)
    ensures CurrentPackage(stanza + [line]) == if IsPackageLine(line) then line[|PACKAGE|..] else CurrentPackage(stanza)
    ensures CurrentInstalled(stanza + [line]) ==
              if IsPackageLine(line) then false
              else if IsStatusLine(line) then Contains(line, INSTALLED)
              else CurrentInstalled(stanza)
  {
    var longer := stanza + [line];
    assert longer[..|longer| - 1] == stanza;
  }

  /** Closing the last stanza adds what the scanner's variables say. */
  lemma ScanDecides(r: seq<seq<string>>)
    requires |r| > 0
    ensures forall name :: Lists(r, name) <==>
              Lists(r[..|r| - 1], name)
              || (name != "" && CurrentPackage(r[|r| - 1]) == name && CurrentInstalled(r[|r| - 1]))
  {
    forall name
      ensures Lists(r, name) <==>
              Lists(r[..|r| - 1], name)
              || (name != "" && CurrentPackage(r[|r| - 1]) == name && CurrentInstalled(r[|r| - 1]))
    {
      ListsSnoc(r, name);
      StanzaState(r[|r| - 1], name);
    }
  }

  lemma ListsSnoc(r: seq<seq<string>>, name: string)
    requires |r| > 0
    ensures Lists(r, name) <==> Lists(r[..|r| - 1], name) || Installs(r[|r| - 1], name)
  {
    if Lists(r, name) {
      var k :| 0 <= k < |r| && Installs(r[k], name);
      if k < |r| - 1 { assert Installs(r[..|r| - 1][k], name); }
    }
    if Lists(r[..|r| - 1], name) {
      var k :| 0 <= k < |r| - 1 && Installs(r[..|r| - 1][k], name);
      assert Installs(r[k], name);
    }
  }

  // ---------------------------------------------------------------- printing and reading back

  /** A stanza as dpkg writes it: its other fields stand between and after the two that matter. */
  datatype Stanza = Stanza(name: string, status: string, middle: seq<string>, rest: seq<string>)

  predicate Neutral(line: string) {
    line != "" && !IsPackageLine(line) && !(STATUS <= line)
  }

  predicate WellFormed(s: Stanza) {
    s.name != "" && (forall l :: l in s.middle ==> Neutral(l)) && (forall l :: l in s.rest ==> Neutral(l))
  }

  function Lines(s: Stanza): seq<string> {
    [PACKAGE + s.name] + s.middle + [STATUS + s.status] + s.rest
  }

  function Print(db: seq<Stanza>): seq<string> {
    if |db| == 0 then [] else Print(db[..|db| - 1]) + Lines(db[|db| - 1]) + [""]
  }

  lemma LinesInstall(s: Stanza, name: string)
    requires WellFormed(s)
    ensures Installs(Lines(s), name) <==> s.name == name && Contains(STATUS + s.status, INSTALLED)
  {
    var stanza := Lines(s);
    var q := 1 + |s.middle|;
    assert stanza[0] == PACKAGE + s.name && stanza[q] == STATUS + s.status;
    assert stanza[0][|PACKAGE|..] == s.name;
    assert forall j :: 0 < j < q ==> stanza[j] == s.middle[j - 1] && stanza[j] in s.middle;
    assert forall j :: q < j < |stanza| ==> stanza[j] == s.rest[j - q - 1] && stanza[j] in s.rest;
    assert !IsPackageLine(stanza[q]) by { assert (STATUS + s.status)[0] == 'S' && PACKAGE[0] == 'P'; }
    assert STATUS <= stanza[q];
    assert LastPackage(stanza, 0) && LastStatusAfter(stanza, 0, q);
  }

  /** One more line, blank or not. */
  lemma SplitLine(lines: seq<string>, line: string)
    ensures var r := Split(lines);
      Split(lines + [line]) == if line == "" then r + [[]] else r[..|r| - 1] + [r[|r| - 1] + [line]]
  {
    var longer := lines + [line];
    assert longer[..|longer| - 1] == lines && longer[|longer| - 1] == line;
  }

  lemma {:induction false} SplitBlock(lines: seq<string>, block: seq<string>)
    requires forall k :: 0 <= k < |block| ==> block[k] != ""
    ensures var r := Split(lines);
      Split(lines + block) == r[..|r| - 1] + [r[|r| - 1] + block]
  {
    var r := Split(lines);
    var head, last := r[..|r| - 1], r[|r| - 1];
    if |block| == 0 {
      assert lines + block == lines && last + block == last;
    } else {
      var n := |block| - 1;
      var init, line := block[..n], block[n];
      assert block == init + [line];
      SplitBlock(lines, init);
      SplitLine(lines + init, line);
      Associate(lines, init, [line]);
      Associate(last, init, [line]);
      InitAndLast(head, last + init);
    }
  }

  lemma Associate(a: seq<string>, b: seq<string>, c: seq<string>)
    ensures a + (b + c) == a + b + c
  {}

  lemma InitAndLast(head: seq<seq<string>>, last: seq<string>)
    ensures var r := head + [last]; r[..|r| - 1] == head && r[|r| - 1] == last
  {}

  function Blocks(db: seq<Stanza>): seq<seq<string>> {
    if |db| == 0 then [] else Blocks(db[..|db| - 1]) + [Lines(db[|db| - 1])]
  }

  lemma {:induction false} BlocksAt(db: seq<Stanza>, k: nat)
    requires k < |db|
    ensures |Blocks(db)| == |db| && Blocks(db)[k] == Lines(db[k])
  {
    var n := |db| - 1;
    if k < n { BlocksAt(db[..n], k); } else if n > 0 { BlocksAt(db[..n], 0); }
  }

  lemma LinesNotBlank(s: Stanza)
    requires WellFormed(s)
    ensures forall k :: 0 <= k < |Lines(s)| ==> Lines(s)[k] != ""
  {
    var stanza := Lines(s);
    var q := 1 + |s.middle|;
    assert (STATUS + s.status)[0] == 'S' && (PACKAGE + s.name)[0] == 'P';
    forall k | 0 <= k < |stanza|
      ensures stanza[k] != ""
    {
      if 0 < k < q {
        assert stanza[k] == s.middle[k - 1] && stanza[k] in s.middle;
      } else if k > q {
        assert stanza[k] == s.rest[k - q - 1] && stanza[k] in s.rest;
      }
    }
  }

  lemma {:induction false} SplitPrint(db: seq<Stanza>)
    requires forall s :: s in db ==> WellFormed(s)
    ensures Split(Print(db)) == Blocks(db) + [[]]
  {
    if |db| > 0 {
      var n := |db| - 1;
      assert forall s :: s in db[..n] ==> s in db;
      SplitPrint(db[..n]);
      LinesNotBlank(db[n]);
      PrintStep(Print(db[..n]), Blocks(db[..n]), Lines(db[n]));
    }
  }

  lemma PrintStep(before: seq<string>, blocks: seq<seq<string>>, block: seq<string>)
    requires Split(before) == blocks + [[]] && forall k :: 0 <= k < |block| ==> block[k] != ""
    ensures Split(before + block + [""]) == blocks + [block] + [[]]
  {
    InitAndLast(blocks, []);
    SplitBlock(before, block);
    SplitLine(before + block, "");
    assert [] + block == block;
  }

  /** Any list of well-formed stanzas, printed and read back, gives exactly the installed ones. */
  lemma PrintReadBack(db: seq<Stanza>, name: string)
    requires forall s :: s in db ==> WellFormed(s)
    ensures Lists(Split(Print(db)), name) <==>
        exists s :: s in db && s.name == name && Contains(STATUS + s.status, INSTALLED)
  {
    SplitPrint(db);
    var r := Split(Print(db));
    if |db| > 0 { BlocksAt(db, 0); }
    forall k | 0 <= k < |db|
      ensures Installs(r[k], name) <==> db[k].name == name && Contains(STATUS + db[k].status, INSTALLED)
    {
      assert db[k] in db;
      BlocksAt(db, k);
      LinesInstall(db[k], name);
    }
    assert r[|db|] == [] && !Installs([], name);
    if exists s :: s in db && s.name == name && Contains(STATUS + s.status, INSTALLED) {
      var s :| s in db && s.name == name && Contains(STATUS + s.status, INSTALLED);
      var k :| 0 <= k < |db| && db[k] == s;
      assert Installs(r[k], name);
    }
  }

  /** The blank line at the very end makes no difference. */
  lemma TrailingBlank(lines: seq<string>, name: string)
    ensures Lists(Split(lines + [""]), name) <==> Lists(Split(lines), name)
  {
    SplitLine(lines, "");
    var r := Split(lines + [""]);
    ListsSnoc(r, name);
    assert r[..|r| - 1] == Split(lines) && r[|r| - 1] == [];
    assert !Installs([], name);
  }

  // ---------------------------------------------------------------- what a status line says

  predicate OneWord(w: string) { forall k :: 0 <= k < |w| ==> w[k] != ' ' }

  /** A blank followed by "installed" is a word that begins like that. */
  lemma WordBegins(s: string, at: nat, word: string, rest: string)
    requires OneWord(word) && (rest == "" || rest[0] == ' ')
    requires at < |s| && s[at..] == " " + word + rest
    ensures OccursAt(s, " installed", at) <==> "installed" <= word
  {
    var sub := " installed";
    var tail := " " + word + rest;
    assert OccursAt(s, sub, at) <==> |tail| >= |sub| && tail[..|sub|] == sub by {
      if |tail| >= |sub| { assert s[at..at + |sub|] == tail[..|sub|]; }
    }
    if |word| >= 9 {
      assert tail[..|sub|] == " " + word[..9];
      assert (" " + word[..9])[1..] == word[..9] && sub[1..] == "installed" && sub == " " + "installed";
    } else if |tail| >= |sub| {
      assert tail[..|sub|][1 + |word|] == rest[0] && sub[1 + |word|] != ' ';
    }
  }

  /** A status line of three words says "installed" exactly if one of them begins like that: so
      "install ok installed" does, and "deinstall ok config-files" and "unknown ok not-installed"
      do not. */
  lemma StatusLineSays(want: string, flag: string, state: string)
    requires OneWord(want) && OneWord(flag) && OneWord(state)
    ensures Contains("Status: " + want + " " + flag + " " + state, INSTALLED) <==>
              "installed" <= want || "installed" <= flag || "installed" <= state
  {
    var s := "Status: " + want + " " + flag + " " + state;
    var a, b := 8 + |want|, 9 + |want| + |flag|;
    assert s[7..] == " " + want + (" " + flag + " " + state);
    assert s[a..] == " " + flag + (" " + state);
    assert s[b..] == " " + state + "";
    WordBegins(s, 7, want, " " + flag + " " + state);
    WordBegins(s, a, flag, " " + state);
    WordBegins(s, b, state, "");
    BlanksAt(want, flag, state);
    forall i | OccursAt(s, " installed", i)
      ensures i in {7, a, b}
    {
      assert s[i..i + 10][0] == s[i];
    }
  }

  lemma BlanksAt(want: string, flag: string, state: string)
    requires OneWord(want) && OneWord(flag) && OneWord(state)
    ensures var s := "Status: " + want + " " + flag + " " + state;
      forall i :: 0 <= i < |s| && i != 7 && i != 8 + |want| && i != 9 + |want| + |flag| ==> s[i] != ' '
  {
    var s := "Status: " + want + " " + flag + " " + state;
    forall i | 0 <= i < |s| && i != 7 && i != 8 + |want| && i != 9 + |want| + |flag|
      ensures s[i] != ' '
    {
      if i < 8 {
        assert s[i] == "Status: "[i];
      } else if i < 8 + |want| {
        assert s[i] == want[i - 8];
      } else if i < 9 + |want| + |flag| {
        assert s[i] == flag[i - 9 - |want|];
      } else {
        assert s[i] == state[i - 10 - |want| - |flag|];
      }
    }
  }

  /** A database as dpkg prints it: the packages it lists are those whose state begins with
      "installed", for any selection and flag that do not. */
  lemma DatabaseLists(name: string, want: string, flag: string, state: string, middle: seq<string>, rest: seq<string>)
    requires OneWord(want) && OneWord(flag) && OneWord(state) && !("installed" <= want) && !("installed" <= flag)
    requires name != "" && (forall l :: l in middle ==> Neutral(l)) && (forall l :: l in rest ==> Neutral(l))
    ensures var stanza := ["Package: " + name] + middle + ["Status: " + want + " " + flag + " " + state] + rest;
      InstalledPackages(stanza) == if "installed" <= state then {name} else {}
  {
    var s := Stanza(name, want + " " + flag + " " + state, middle, rest);
    assert "Status: " + want + " " + flag + " " + state == STATUS + s.status by {
      assert "Status: " + (want + " " + flag + " " + state) == "Status: " + want + " " + flag + " " + state;
    }
    StatusLineSays(want, flag, state);
    OneStanza(s);
  }

  lemma OneStanza(s: Stanza)
    requires WellFormed(s)
    ensures InstalledPackages(Lines(s)) == if Contains(STATUS + s.status, INSTALLED) then {s.name} else {}
  {
    var lines := Lines(s);
    OneBlock(s);
    forall n
      ensures n in InstalledPackages(lines) <==> n == s.name && Contains(STATUS + s.status, INSTALLED)
    {
      OneListed(lines, n);
      LinesInstall(s, n);
    }
  }

  lemma OneBlock(s: Stanza)
    requires WellFormed(s)
    ensures Split(Lines(s)) == [Lines(s)]
  {
    var lines := Lines(s);
    LinesNotBlank(s);
    SplitBlock([], lines);
    assert [] + lines == lines && Split([]) == [[]];
  }

  lemma OneListed(stanza: seq<string>, name: string)
    ensures name in InstalledIn([stanza]) <==> Installs(stanza, name)
  {
    InstalledInLists([stanza], name);
    ListsSnoc([stanza], name);
  }
}
