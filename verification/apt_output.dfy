/** Deciding from apt-get's output whether packages were installed or removed. */
module AptOutput {
  import opened Numerals
  import opened Text

  /** handlePackageApt's test on the combined output. */
  predicate ReportsChange(out: string) {
    !Contains(out, "0 newly installed") || !Contains(out, "0 to remove")
  }

  /** apt-get's summary line. */
  function Summary(upgraded: nat, installed: nat, removed: nat, held: nat): string {
    Render(upgraded, 10) + " upgraded, " + Render(installed, 10) + " newly installed, "
    + Render(removed, 10) + " to remove and " + Render(held, 10) + " not upgraded."
  }

  predicate Without(s: string, c: char) { forall i :: 0 <= i < |s| ==> s[i] != c }

  lemma DigitsWithout(n: nat, c: char)
    requires c > '9'
    ensures Without(Render(n, 10), c)
  {
    var s := Render(n, 10);
    forall i | 0 <= i < |s|
      ensures s[i] != c
    {
      assert IsDigit(s[i], 10);
    }
  }

  /** If the count before a phrase is the only text the phrase's unique letter `c` stands next to,
      then "0" + phrase occurs exactly when the count's last digit is 0. */
  lemma CountThenPhrase(s: string, before: string, count: string, phrase: string, after: string, tail: string,
                        at: nat, c: char)
    requires s == before + count + phrase + after + tail && |count| > 0
    requires at < |phrase| && phrase[at] == c
    requires Without(before, c) && Without(count, c) && Without(after, c) && Without(tail, c)
    requires forall i :: 0 <= i < |phrase| && i != at ==> phrase[i] != c
    ensures Contains(s, "0" + phrase) <==> count[|count| - 1] == '0'
  {
    var start := |before| + |count|;
    assert forall i :: 0 <= i < |s| && s[i] == c ==> i == start + at;
    var sub := "0" + phrase;
    assert sub[at + 1] == c;
    if Contains(s, sub) {
      var i :| 0 <= i <= |s| && OccursAt(s, sub, i);
      assert s[i..i + |sub|][at + 1] == s[i + at + 1];
      assert s[i..i + |sub|][0] == s[i];
    }
    if count[|count| - 1] == '0' {
      assert s[start - 1..start - 1 + |sub|] == sub;
      assert OccursAt(s, sub, start - 1);
    }
  }

  lemma LastDigit(n: nat)
    ensures var s := Render(n, 10); s[|s| - 1] == '0' <==> n % 10 == 0
  {
    var s := Render(n, 10);
    RenderLastDigit(n, 10);
    assert IsDigit(s[|s| - 1], 10);
  }

  lemma WithoutConcat(a: string, b: string, c: char)
    requires Without(a, c) && Without(b, c)
    ensures Without(a + b, c)
  {}

  lemma Regroup(x: string, p: string, q: string, r: string, b: string, h: string, e: string)
    ensures x + (p + q) + r + b + h + e == x + p + q + (r + b + h + e)
  {
    assert x + (p + q) == x + p + q;
    var y := x + p + q;
    assert y + r + b + h + e == y + (r + b + h + e);
  }

  /** On the summary alone: the last digit of the first count decides ... */
  lemma SummaryInstalled(upgraded: nat, installed: nat, removed: nat, held: nat)
    ensures Contains(Summary(upgraded, installed, removed, held), "0 newly installed") <==> installed % 10 == 0
  {
    var u, n, r, h := Render(upgraded, 10), Render(installed, 10), Render(removed, 10), Render(held, 10);
    var s := Summary(upgraded, installed, removed, held);
    LastDigit(installed);
    DigitsWithout(upgraded, 'w'); DigitsWithout(installed, 'w'); DigitsWithout(removed, 'w'); DigitsWithout(held, 'w');
    WithoutConcat(u, " upgraded, ", 'w');
    WithoutConcat(r, " to remove and ", 'w');
    WithoutConcat(r + " to remove and ", h, 'w');
    WithoutConcat(r + " to remove and " + h, " not upgraded.", 'w');
    var tail := r + " to remove and " + h + " not upgraded.";
    assert " newly installed, " == " newly installed" + ", ";
    var head := u + " upgraded, " + n;
    Regroup(head, " newly installed", ", ", r, " to remove and ", h, " not upgraded.");
    assert s == (u + " upgraded, ") + n + " newly installed" + ", " + tail;
    CountThenPhrase(s, u + " upgraded, ", n, " newly installed", ", ", tail, 3, 'w');
    assert "0" + " newly installed" == "0 newly installed";
  }

  /** ... and that of the second. */
  lemma SummaryRemoved(upgraded: nat, installed: nat, removed: nat, held: nat)
    ensures Contains(Summary(upgraded, installed, removed, held), "0 to remove") <==> removed % 10 == 0
  {
    var u, n, r, h := Render(upgraded, 10), Render(installed, 10), Render(removed, 10), Render(held, 10);
    var s := Summary(upgraded, installed, removed, held);
    LastDigit(removed);
    DigitsWithout(upgraded, 'v'); DigitsWithout(installed, 'v'); DigitsWithout(removed, 'v'); DigitsWithout(held, 'v');
    WithoutConcat(u, " upgraded, ", 'v');
    WithoutConcat(u + " upgraded, ", n, 'v');
    WithoutConcat(u + " upgraded, " + n, " newly installed, ", 'v');
    WithoutConcat(h, " not upgraded.", 'v');
    var head := u + " upgraded, " + n + " newly installed, ";
    var tail := h + " not upgraded.";
    assert " to remove and " == " to remove" + " and ";
    assert s == head + r + " to remove" + " and " + tail;
    CountThenPhrase(s, head, r, " to remove", " and ", tail, 8, 'v');
    assert "0" + " to remove" == "0 to remove";
  }

  /** Every occurrence of the phrase in the output lies inside the summary. */
  ghost predicate OnlyInside(out: string, from: nat, to: nat, sub: string) {
    forall i :: OccursAt(out, sub, i) ==> from <= i && i + |sub| <= to
  }

  lemma InsideOnly(pre: string, s: string, post: string, sub: string)
    requires OnlyInside(pre + s + post, |pre|, |pre| + |s|, sub)
    ensures Contains(pre + s + post, sub) <==> Contains(s, sub)
  {
    var out := pre + s + post;
    if Contains(out, sub) {
      var i :| 0 <= i <= |out| && OccursAt(out, sub, i);
      assert s[i - |pre|..i - |pre| + |sub|] == out[i..i + |sub|];
      assert OccursAt(s, sub, i - |pre|);
    }
    if Contains(s, sub) {
      var i :| 0 <= i <= |s| && OccursAt(s, sub, i);
      assert out[i + |pre|..i + |pre| + |sub|] == s[i..i + |sub|];
      assert OccursAt(out, sub, i + |pre|);
    }
  }

  /** The detector, exactly. For output in which only the summary mentions the two phrases, it
      reports no change if and only if both counts are multiples of ten: ten newly installed
      packages and none removed look like no change. */
  lemma DetectorExact(pre: string, upgraded: nat, installed: nat, removed: nat, held: nat, post: string)
    requires var s := Summary(upgraded, installed, removed, held);
      && OnlyInside(pre + s + post, |pre|, |pre| + |s|, "0 newly installed")
      && OnlyInside(pre + s + post, |pre|, |pre| + |s|, "0 to remove")
    ensures !ReportsChange(pre + Summary(upgraded, installed, removed, held) + post) <==>
            installed % 10 == 0 && removed % 10 == 0
  {
    var s := Summary(upgraded, installed, removed, held);
    InsideOnly(pre, s, post, "0 newly installed");
    InsideOnly(pre, s, post, "0 to remove");
    SummaryInstalled(upgraded, installed, removed, held);
    SummaryRemoved(upgraded, installed, removed, held);
  }
}
