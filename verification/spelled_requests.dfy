/** Requests as a task spells them: which owner, group and mode the texts ask for, and what one call
    of the setter then does, said without the setter's own parsing. */
module SpelledRequests {
  import opened Wrappers
  import opened Numerals
  import opened FileSystem
  import opened Resolution
  import opened Attributes

  /** What a task wants. */
  datatype Wish = Wish(mode: Option<Perm>, owner: Option<Id>, group: Option<Id>)

  /** An id is spelled by its decimal number, or by the name of an account that has it. */
  ghost predicate SpellsId(names: map<string, int>, text: string, id: Option<Id>) {
    match id
    case None => text == ""
    case Some(n) => text == Render(n, 10) || (IsName(text) && text in names && names[text] == n)
  }

  /** A mode is spelled by its octal digits, with or without a leading zero. */
  ghost predicate SpellsMode(text: string, mode: Option<Perm>) {
    match mode
    case None => text == ""
    case Some(m) => text == Render(m, 8) || text == "0" + Render(m, 8)
  }

  ghost predicate Spells(job: Job, wish: Wish) {
    && SpellsMode(job.req.mode, wish.mode)
    && SpellsId(job.acc.users, job.req.owner, wish.owner)
    && SpellsId(job.acc.groups, job.req.group, wish.group)
  }

  /** The attributes of an inode that had `a` once the wish is granted; a symlink has no mode. */
  function Granted(k: Kind, a: Attr, wish: Wish): Attr {
    Attr(if k.Link? || wish.mode.None? then a.perm else wish.mode.value,
         if wish.owner.None? then a.uid else wish.owner.value,
         if wish.group.None? then a.gid else wish.group.value)
  }

  function WithMode(k: Kind, a: Attr, wish: Wish): Attr { Granted(k, a, wish.(owner := None, group := None)) }

  lemma IdSpelled(names: map<string, int>, text: string, id: Option<Id>)
    requires SpellsId(names, text, id)
    ensures id.Some? ==> text != "" && LookupId(names, text) == Some(id.value as int)
  {
    if id.Some? {
      AtoiReads(id.value);
      if IsName(text) { NamesAreNoNumbers(text); }
    }
  }

  lemma ModeSpelled(text: string, mode: Option<Perm>)
    requires SpellsMode(text, mode)
    ensures mode.Some? ==> text != "" && ParseOctal32(text) == Some(mode.value as nat)
  {
    if mode.Some? {
      RenderValue(mode.value, 8);
      LeadingZero(Render(mode.value, 8), 8);
    }
  }

  function PlanFor(wish: Wish): Plan {
    Plan(if wish.mode.None? then None else Some(wish.mode.value as nat),
         if wish.owner.None? then -1 else wish.owner.value as int,
         if wish.group.None? then -1 else wish.group.value as int)
  }

  /** A spelled request is understood as what it spells. */
  lemma PlanSpelled(job: Job, wish: Wish)
    requires Spells(job, wish)
    ensures Understood(job) && Settles(PlanOf(job)) && PlanOf(job) == PlanFor(wish)
  {
    ModeSpelled(job.req.mode, wish.mode);
    IdSpelled(job.acc.users, job.req.owner, wish.owner);
    IdSpelled(job.acc.groups, job.req.group, wish.group);
    PlanOfParts(job, wish);
  }

  lemma PlanOfParts(job: Job, wish: Wish)
    requires wish.mode.None? ==> job.req.mode == ""
    requires wish.mode.Some? ==> job.req.mode != "" && ParseOctal32(job.req.mode) == Some(wish.mode.value as nat)
    requires wish.owner.None? ==> job.req.owner == ""
    requires wish.owner.Some? ==>
               job.req.owner != "" && LookupId(job.acc.users, job.req.owner) == Some(wish.owner.value as int)
    requires wish.group.None? ==> job.req.group == ""
    requires wish.group.Some? ==>
               job.req.group != "" && LookupId(job.acc.groups, job.req.group) == Some(wish.group.value as int)
    ensures Understood(job) && Settles(PlanOf(job)) && PlanOf(job) == PlanFor(wish)
  {}

  lemma TouchGrants(k: Kind, a: Attr, wish: Wish)
    ensures Touch(k, a, PlanFor(wish)) == Granted(k, a, wish)
    ensures Wants(k, a, PlanFor(wish)) <==> Granted(k, a, wish) != a
  {}

  /** The two system calls a request may need on an inode with attributes `a`. */
  predicate NeedsChmod(k: Kind, a: Attr, wish: Wish) { WithMode(k, a, wish) != a }
  predicate NeedsChown(k: Kind, a: Attr, wish: Wish) { Granted(k, a, wish) != WithMode(k, a, wish) }

  /** One call of the setter, decided by what the request spells and which calls fail: everything is
      granted and a change reported iff something was different; a failing chmod changes nothing; a
      failing chown leaves the mode set. */
  lemma ApplyGrants(t: Tree, attrs: Attrs, path: Path, job: Job, lchown: bool, i: Ino, wish: Wish)
    requires Addresses(t, path, lchown, i) && i in attrs && i in t.nodes && Spells(job, wish)
    ensures var k, a := t.nodes[i], attrs[i];
      Apply(t, attrs, path, job, lchown) ==
        if NeedsChmod(k, a, wish) && Fault(ChmodCall, path) in job.faults then Outcome(attrs, false, Some(Sys(EIO)))
        else if NeedsChown(k, a, wish) && Fault(ChownCall, path) in job.faults then
          Outcome(attrs[i := WithMode(k, a, wish)], NeedsChmod(k, a, wish), Some(Sys(EIO)))
        else Outcome(attrs[i := Granted(k, a, wish)], Granted(k, a, wish) != a, None)
  {
    ModeSpelled(job.req.mode, wish.mode);
    IdSpelled(job.acc.users, job.req.owner, wish.owner);
    IdSpelled(job.acc.groups, job.req.group, wish.group);
    ModeGrants(t, attrs, path, job, lchown, i, wish);
    var k, a := t.nodes[i], attrs[i];
    var b := attrs[i := WithMode(k, a, wish)];
    if !(NeedsChmod(k, a, wish) && Fault(ChmodCall, path) in job.faults) {
      OwnerGrants(t, b, path, job, lchown, i, wish);
      ApplyCombines(t, attrs, path, job, lchown, b);
      assert Granted(k, b[i], wish.(mode := None)) == Granted(k, a, wish);
      assert b[i := Granted(k, a, wish)] == attrs[i := Granted(k, a, wish)];
    }
  }

  lemma ApplyCombines(t: Tree, attrs: Attrs, path: Path, job: Job, lchown: bool, b: Attrs)
    requires ApplyMode(t, attrs, path, job, lchown).err.None? && ApplyMode(t, attrs, path, job, lchown).attrs == b
    ensures var o := ApplyOwner(t, b, path, job, lchown);
      Apply(t, attrs, path, job, lchown) ==
        Outcome(o.attrs, ApplyMode(t, attrs, path, job, lchown).changed || o.changed, o.err)
  {}

  lemma ModeGrants(t: Tree, attrs: Attrs, path: Path, job: Job, lchown: bool, i: Ino, wish: Wish)
    requires Addresses(t, path, lchown, i) && i in attrs && i in t.nodes
    requires wish.mode.None? ==> job.req.mode == ""
    requires wish.mode.Some? ==> job.req.mode != "" && ParseOctal32(job.req.mode) == Some(wish.mode.value as nat)
    ensures var k, a := t.nodes[i], attrs[i];
      ApplyMode(t, attrs, path, job, lchown) ==
        if NeedsChmod(k, a, wish) && Fault(ChmodCall, path) in job.faults then Outcome(attrs, false, Some(Sys(EIO)))
        else Outcome(attrs[i := WithMode(k, a, wish)], NeedsChmod(k, a, wish), None)
  {
    assert attrs[i := attrs[i]] == attrs;
  }

  lemma OwnerGrants(t: Tree, attrs: Attrs, path: Path, job: Job, lchown: bool, i: Ino, wish: Wish)
    requires Addresses(t, path, lchown, i) && i in attrs && i in t.nodes
    requires wish.owner.None? ==> job.req.owner == ""
    requires wish.owner.Some? ==>
               job.req.owner != "" && LookupId(job.acc.users, job.req.owner) == Some(wish.owner.value as int)
    requires wish.group.None? ==> job.req.group == ""
    requires wish.group.Some? ==>
               job.req.group != "" && LookupId(job.acc.groups, job.req.group) == Some(wish.group.value as int)
    ensures var a := attrs[i]; var b := Granted(t.nodes[i], a, wish.(mode := None));
      ApplyOwner(t, attrs, path, job, lchown) ==
        if b != a && Fault(ChownCall, path) in job.faults then Outcome(attrs, false, Some(Sys(EIO)))
        else Outcome(attrs[i := b], b != a, None)
  {
    assert attrs[i := attrs[i]] == attrs;
  }

  // ---------------------------------------------------------------- requests that are refused

  /** A digit that is not octal, or no digit at all. */
  predicate NotOctal(s: string) { exists k :: 0 <= k < |s| && !('0' <= s[k] <= '7') }

  /** A mode that is no octal number is refused before anything else. */
  lemma BadModeRefused(t: Tree, attrs: Attrs, path: Path, job: Job, lchown: bool)
    requires NotOctal(job.req.mode)
    ensures Apply(t, attrs, path, job, lchown) == Outcome(attrs, false, Some(BadMode))
  {
    var k :| 0 <= k < |job.req.mode| && !('0' <= job.req.mode[k] <= '7');
    assert !IsDigit(job.req.mode[k], 8);
  }

  /** An owner or group that is neither a number nor an account is refused after the mode was set. */
  lemma UnknownRefused(t: Tree, attrs: Attrs, path: Path, job: Job, lchown: bool, i: Ino, wish: Wish)
    requires Addresses(t, path, lchown, i) && i in attrs && i in t.nodes && Fault(ChmodCall, path) !in job.faults
    requires SpellsMode(job.req.mode, wish.mode)
    ensures var r := Apply(t, attrs, path, job, lchown); var b := attrs[i := WithMode(t.nodes[i], attrs[i], wish)];
      && (IsName(job.req.owner) && job.req.owner !in job.acc.users ==>
            r == Outcome(b, NeedsChmod(t.nodes[i], attrs[i], wish), Some(UnknownUser)))
      && (SpellsId(job.acc.users, job.req.owner, wish.owner)
          && IsName(job.req.group) && job.req.group !in job.acc.groups ==>
            r == Outcome(b, NeedsChmod(t.nodes[i], attrs[i], wish), Some(UnknownGroup)))
  {
    ModeSpelled(job.req.mode, wish.mode);
    ModeGrants(t, attrs, path, job, lchown, i, wish);
    if IsName(job.req.owner) { NamesAreNoNumbers(job.req.owner); }
    if IsName(job.req.group) { NamesAreNoNumbers(job.req.group); }
    if SpellsId(job.acc.users, job.req.owner, wish.owner) { IdSpelled(job.acc.users, job.req.owner, wish.owner); }
  }

  /** Where the path leads nowhere, a request for nothing succeeds and any other fails for that
      reason. */
  lemma NowhereRefused(t: Tree, attrs: Attrs, path: Path, job: Job, wish: Wish)
    requires !Stat(t, path).Found? && Spells(job, wish)
    ensures Apply(t, attrs, path, job, false) ==
              Outcome(attrs, false, if wish == Wish(None, None, None) then None else Some(Sys(ErrnoOf(Stat(t, path)))))
  {
    PlanSpelled(job, wish);
    ModeSpelled(job.req.mode, wish.mode);
    IdSpelled(job.acc.users, job.req.owner, wish.owner);
    IdSpelled(job.acc.groups, job.req.group, wish.group);
  }
}
