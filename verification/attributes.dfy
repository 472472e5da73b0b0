/** Owner, group and mode: the attribute setter every handler shares, and what one successful
    call of it does to the inode it reaches. */
module Attributes {
  import opened Wrappers
  import opened Numerals
  import opened FileSystem
  import opened Resolution

  /** The account databases behind user.Lookup and user.LookupGroup. */
  datatype Accounts = Accounts(users: map<string, int>, groups: map<string, int>)

  /** The attributes a caller asks for; "" asks for nothing. */
  datatype Request = Request(owner: string, group: string, mode: string)

  /** What is fixed during one attribute pass. */
  datatype Job = Job(acc: Accounts, req: Request, faults: set<Fault>)

  datatype Error =
    | BadMode | UnknownUser | UnknownGroup | Sys(err: Errno)
    | NotADirectory | IsADirectory | NotThere | BadContent

  datatype Outcome = Outcome(attrs: Attrs, changed: bool, err: Option<Error>)

  const KEEP_ID := 0xFFFF_FFFF

  // ---------------------------------------------------------------- the setter, step by step

  /** chmod(2) through os.Chmod: only the nine permission bits of the number are used. */
  function ChmodAttr(a: Attr, mode: nat): Attr { a.(perm := mode % 0x200) }

  /** chown(2): an id is cut to 32 bits, and all ones leaves the owner alone. */
  function ChownAttr(a: Attr, uid: int, gid: int): Attr {
    var u := uid % UINT32_LIMIT;
    var g := gid % UINT32_LIMIT;
    Attr(a.perm, if u == KEEP_ID then a.uid else u, if g == KEEP_ID then a.gid else g)
  }

  predicate OwnerDiffers(a: Attr, uid: int, gid: int) {
    (uid >= 0 && a.uid != uid) || (gid >= 0 && a.gid != gid)
  }

  function LookupId(names: map<string, int>, s: string): Option<int> {
    match Atoi(s)
    case Some(n) => Some(n)
    case None => if s in names then Some(names[s]) else None
  }

  function ChmodIfDifferent(t: Tree, attrs: Attrs, path: Path, mode: nat, faults: set<Fault>): (r: Outcome)
    ensures r.attrs.Keys == attrs.Keys
  {
    match Stat(t, path)
    case Found(i, _) =>
      if i !in attrs then Outcome(attrs, false, Some(Sys(EIO)))
      else if attrs[i].perm == mode then Outcome(attrs, false, None)
      else if Fault(ChmodCall, path) in faults then Outcome(attrs, false, Some(Sys(EIO)))
      else Outcome(attrs[i := ChmodAttr(attrs[i], mode)], true, None)
    case r => Outcome(attrs, false, Some(Sys(ErrnoOf(r))))
  }

  function ApplyMode(t: Tree, attrs: Attrs, path: Path, job: Job, lchown: bool): (r: Outcome)
    ensures r.attrs.Keys == attrs.Keys
  {
    if job.req.mode == "" then Outcome(attrs, false, None)
    else
      match ParseOctal32(job.req.mode)
      case None => Outcome(attrs, false, Some(BadMode))
      case Some(m) =>
        if !lchown then ChmodIfDifferent(t, attrs, path, m, job.faults)
        else
          match Lstat(t, path)
          case Found(i, _) =>
            if t.IsLink(i) then Outcome(attrs, false, None)
            else ChmodIfDifferent(t, attrs, path, m, job.faults)
          case r => Outcome(attrs, false, Some(Sys(ErrnoOf(r))))
  }

  function ChownIfDifferent(t: Tree, attrs: Attrs, path: Path, uid: int, gid: int, faults: set<Fault>,
                            lchown: bool): (r: Outcome)
    ensures r.attrs.Keys == attrs.Keys
  {
    match Resolve(t, path, !lchown)
    case Found(i, _) =>
      if i !in attrs then Outcome(attrs, false, Some(Sys(EIO)))
      else if !OwnerDiffers(attrs[i], uid, gid) then Outcome(attrs, false, None)
      else if Fault(ChownCall, path) in faults then Outcome(attrs, false, Some(Sys(EIO)))
      else Outcome(attrs[i := ChownAttr(attrs[i], uid, gid)], true, None)
    case r => Outcome(attrs, false, Some(Sys(ErrnoOf(r))))
  }

  function ApplyOwner(t: Tree, attrs: Attrs, path: Path, job: Job, lchown: bool): (r: Outcome)
    ensures r.attrs.Keys == attrs.Keys
  {
    var req := job.req;
    if req.owner == "" && req.group == "" then Outcome(attrs, false, None)
    else
      var uid := if req.owner == "" then Some(-1) else LookupId(job.acc.users, req.owner);
      if uid.None? then Outcome(attrs, false, Some(UnknownUser))
      else
        var gid := if req.group == "" then Some(-1) else LookupId(job.acc.groups, req.group);
        if gid.None? then Outcome(attrs, false, Some(UnknownGroup))
        else ChownIfDifferent(t, attrs, path, uid.value, gid.value, job.faults, lchown)
  }

  /** applyOwnershipAndModeWithChown: the mode first, then the owner; an error in the second
      half leaves the first half done. */
  function Apply(t: Tree, attrs: Attrs, path: Path, job: Job, lchown: bool): (r: Outcome)
    ensures r.attrs.Keys == attrs.Keys
  {
    var m := ApplyMode(t, attrs, path, job, lchown);
    if m.err.Some? then m
    else
      var o := ApplyOwner(t, m.attrs, path, job, lchown);
      Outcome(o.attrs, m.changed || o.changed, o.err)
  }

  // ---------------------------------------------------------------- what a request means

  /** A request after parsing and account lookup. The setter never compares an id below 0, but
      passes it on when the other id differs. */
  datatype Plan = Plan(mode: Option<nat>, uid: int, gid: int)

  predicate Understood(job: Job) {
    && (job.req.mode != "" ==> ParseOctal32(job.req.mode).Some?)
    && (job.req.owner != "" ==> LookupId(job.acc.users, job.req.owner).Some?)
    && (job.req.group != "" ==> LookupId(job.acc.groups, job.req.group).Some?)
  }

  function PlanOf(job: Job): Plan {
    if !Understood(job) then Plan(None, -1, -1)
    else Plan(
      if job.req.mode == "" then None else ParseOctal32(job.req.mode),
      if job.req.owner == "" then -1 else LookupId(job.acc.users, job.req.owner).value,
      if job.req.group == "" then -1 else LookupId(job.acc.groups, job.req.group).value)
  }

  /** The attributes an inode of this kind has once the plan was applied to it. */
  function Touch(k: Kind, a: Attr, plan: Plan): Attr {
    var b := if k.Link? || plan.mode.None? then a else ChmodAttr(a, plan.mode.value);
    if OwnerDiffers(b, plan.uid, plan.gid) then ChownAttr(b, plan.uid, plan.gid) else b
  }

  /** Whether applying the plan to the inode is reported as a change. */
  predicate Wants(k: Kind, a: Attr, plan: Plan) {
    || (!k.Link? && plan.mode.Some? && a.perm != plan.mode.value)
    || OwnerDiffers(a, plan.uid, plan.gid)
  }

  /** The plan names attributes an inode can actually hold. */
  predicate Settles(plan: Plan) {
    && (plan.mode.Some? ==> plan.mode.value < 0x200)
    && plan.uid < KEEP_ID && plan.gid < KEEP_ID
  }

  /** What can be compared is as requested. */
  predicate AsRequested(k: Kind, a: Attr, plan: Plan) {
    && (!k.Link? && plan.mode.Some? ==> a.perm == plan.mode.value)
    && (plan.uid >= 0 ==> a.uid == plan.uid)
    && (plan.gid >= 0 ==> a.gid == plan.gid)
  }

  lemma TouchTwice(k: Kind, a: Attr, plan: Plan)
    ensures Touch(k, Touch(k, a, plan), plan) == Touch(k, a, plan)
    ensures Wants(k, Touch(k, a, plan), plan) ==> Wants(k, a, plan)
    ensures !Wants(k, a, plan) ==> Touch(k, a, plan) == a
    ensures Settles(plan) && Wants(k, a, plan) ==> Touch(k, a, plan) != a
  {}

  /** A plan leaves an inode as requested exactly when the plan can be held; otherwise every
      further application is reported as a change again. */
  lemma TouchedAsRequested(k: Kind, a: Attr, plan: Plan)
    ensures AsRequested(k, a, plan) <==> !Wants(k, a, plan)
    ensures !k.Link? ==> (Wants(k, Touch(k, a, plan), plan) <==> !Settles(plan))
    ensures Settles(plan) ==> AsRequested(k, Touch(k, a, plan), plan)
  {}

  /** What is not asked for stays: the mode always, the owner and the group exactly if chown makes
      nothing of the id it is passed. The id -1 always asks for nothing. */
  lemma UnaskedStays(k: Kind, a: Attr, plan: Plan)
    ensures k.Link? || plan.mode.None? ==> Touch(k, a, plan).perm == a.perm
    ensures plan.uid < 0 ==>
              (Touch(k, a, plan).uid == a.uid <==> !Smuggled(plan.uid, a.uid) || plan.gid < 0 || a.gid == plan.gid)
    ensures plan.gid < 0 ==>
              (Touch(k, a, plan).gid == a.gid <==> !Smuggled(plan.gid, a.gid) || plan.uid < 0 || a.uid == plan.uid)
    ensures !Smuggled(-1, a.uid) && !Smuggled(-1, a.gid)
  {}

  /** An id that chown would cut to one other than the present. */
  predicate Smuggled(id: int, present: Id) { id % UINT32_LIMIT != KEEP_ID && id % UINT32_LIMIT != present }

  /** An owner below -1 is written although nobody was asked for: with a group that differs, owner
      "-5" becomes user 4294967291, and the repetition finds nothing to do. */
  lemma NegativeOwnerIsWritten(k: Kind, a: Attr, gid: Id)
    requires a.gid != gid && a.uid != 4294967291
    ensures var plan := Plan(None, -5, gid);
      && Settles(plan) && Touch(k, a, plan) == Attr(a.perm, 4294967291, gid)
      && !Wants(k, Touch(k, a, plan), plan)
  {}

  // ---------------------------------------------------------------- one call, exactly

  /** The inode one call is about: lchown is passed only for names listed as symlinks. */
  ghost predicate Addresses(t: Tree, path: Path, lchown: bool, i: Ino) {
    && Resolve(t, path, !lchown).Found? && Resolve(t, path, !lchown).ino == i
    && lchown == t.IsLink(i)
  }

  /** A successful call changes the reached inode to the touched attributes and nothing else, and
      reports a change exactly when the inode was not as requested. */
  lemma ApplyExact(t: Tree, attrs: Attrs, path: Path, job: Job, lchown: bool, i: Ino)
    requires Addresses(t, path, lchown, i) && i in attrs && i in t.nodes
    requires Apply(t, attrs, path, job, lchown).err.None?
    ensures var r := Apply(t, attrs, path, job, lchown); var plan := PlanOf(job);
      && Understood(job)
      && r.attrs == attrs[i := Touch(t.nodes[i], attrs[i], plan)]
      && (r.changed <==> Wants(t.nodes[i], attrs[i], plan))
  {
    var m := ApplyMode(t, attrs, path, job, lchown);
    ModeExact(t, attrs, path, job, lchown, i);
    OwnerExact(t, m.attrs, path, job, lchown, i);
  }

  lemma ModeExact(t: Tree, attrs: Attrs, path: Path, job: Job, lchown: bool, i: Ino)
    requires Addresses(t, path, lchown, i) && i in attrs
    requires ApplyMode(t, attrs, path, job, lchown).err.None?
    ensures var m := ApplyMode(t, attrs, path, job, lchown);
      && (job.req.mode != "" ==> ParseOctal32(job.req.mode).Some?)
      && var asks := !lchown && job.req.mode != "";
      && m.attrs == attrs[i := if asks then ChmodAttr(attrs[i], ParseOctal32(job.req.mode).value) else attrs[i]]
      && (m.changed <==> asks && attrs[i].perm != ParseOctal32(job.req.mode).value)
  {}

  lemma OwnerExact(t: Tree, attrs: Attrs, path: Path, job: Job, lchown: bool, i: Ino)
    requires Addresses(t, path, lchown, i) && i in attrs
    requires ApplyOwner(t, attrs, path, job, lchown).err.None?
    ensures var o := ApplyOwner(t, attrs, path, job, lchown);
      && (job.req.owner != "" ==> LookupId(job.acc.users, job.req.owner).Some?)
      && (job.req.group != "" ==> LookupId(job.acc.groups, job.req.group).Some?)
      && var uid := if job.req.owner == "" then -1 else LookupId(job.acc.users, job.req.owner).value;
      && var gid := if job.req.group == "" then -1 else LookupId(job.acc.groups, job.req.group).value;
      && o.attrs == attrs[i := if OwnerDiffers(attrs[i], uid, gid) then ChownAttr(attrs[i], uid, gid) else attrs[i]]
      && (o.changed <==> OwnerDiffers(attrs[i], uid, gid))
  {}

  /** A call succeeds when the request is understood and either nothing has to change or no
      system call fails. */
  lemma ApplySucceeds(t: Tree, attrs: Attrs, path: Path, job: Job, lchown: bool, i: Ino)
    requires Addresses(t, path, lchown, i) && i in attrs && i in t.nodes
    requires Understood(job)
    requires job.faults == {} || !Wants(t.nodes[i], attrs[i], PlanOf(job))
    ensures Apply(t, attrs, path, job, lchown).err.None?
  {}

  /** Whatever happens, a call changes at most the attributes of the inode its path leads to, which
      for lchown is the link itself. */
  lemma ApplyFrame(t: Tree, attrs: Attrs, path: Path, job: Job, lchown: bool)
    ensures var r := Apply(t, attrs, path, job, lchown);
      forall i :: i in attrs && r.attrs[i] != attrs[i] ==>
        Resolve(t, path, !lchown).Found? && Resolve(t, path, !lchown).ino == i
  {
    var here := Lstat(t, path);
    if lchown && here.Found? && !t.IsLink(here.ino) {
      LstatIsStat(t, Origin(t, path.abs, t.cwd), path.segs, MAX_HOPS);
    }
  }

  /** The mode handleStat prints, handed back to the setter on the same node, changes nothing. */
  lemma StatModeRoundTrip(t: Tree, attrs: Attrs, path: Path, i: Ino, faults: set<Fault>, acc: Accounts)
    requires Stat(t, path).Found? && Stat(t, path).ino == i && i in attrs
    ensures var printed := "0" + Render(attrs[i].perm, 8);
      Apply(t, attrs, path, Job(acc, Request("", "", printed), faults), false) == Outcome(attrs, false, None)
  {
    RenderValue(attrs[i].perm, 8);
    LeadingZero(Render(attrs[i].perm, 8), 8);
  }
}
