/** The emulated user and group identities of a tracee (src/extension/fake_id0/fake_id0.c:80-260).
    The same four macros serve users and groups; in both uses the privilege test looks at the
    effective *user*. */
module FakeId0 {
  import opened Common

  type Id = x: int | 0 <= x < 0x1_0000_0000

  /** `(uid_t) -1`: leave this identity as it is. */
  const UNSET: Id := 0xFFFF_FFFF
  const EPERM := 1

  /** The value an argument register gets when it is stored in a `uid_t`. */
  function Truncated(w: Word): Id {
    w % 0x1_0000_0000
  }

  datatype Ids = Ids(actual: Id, effective: Id, saved: Id, fs: Id)
  datatype Credentials = Credentials(uid: Ids, gid: Ids)
  datatype Family = User | Group

  datatype Call =
    | SetId(family: Family, id: Id)
    | SetReId(family: Family, actual: Id, effective: Id)
    | SetResId(family: Family, actual: Id, effective: Id, saved: Id)
    | SetFsId(family: Family, id: Id)

  function Members(i: Ids): set<Id> {
    {i.actual, i.effective, i.saved}
  }

  function Of(c: Credentials, f: Family): Ids {
    if f.User? then c.uid else c.gid
  }

  function With(c: Credentials, f: Family, i: Ids): Credentials {
    if f.User? then c.(uid := i) else c.(gid := i)
  }

  function Root(c: Credentials): bool {
    c.uid.effective == 0
  }

  /** `id`, or what is there already when the argument says so. */
  function Chosen(id: Id, current: Id): Id {
    if id == UNSET then current else id
  }

  // ---- what the manual pages grant and do ---------------------------------------------------

  /** setreuid(2): the real identity comes from {real, effective}, the effective one from all three. */
  predicate ReGranted(i: Ids, actual: Id, effective: Id) {
    Chosen(actual, i.actual) in {i.actual, i.effective} && Chosen(effective, i.effective) in Members(i)
  }

  function ReManual(i: Ids, actual: Id, effective: Id): Ids {
    var e := Chosen(effective, i.effective);
    var follows := actual != UNSET || (effective != UNSET && effective != i.actual);
    Ids(Chosen(actual, i.actual), e, if follows then e else i.saved, if effective != UNSET then e else i.fs)
  }

  // ---- what the macros do ----------------------------------------------------------------

  predicate Unchanged(id: Id, current: Id) {
    id == UNSET || id == current
  }

  predicate ReAllowed(i: Ids, actual: Id, effective: Id) {
    || (Unchanged(effective, i.effective) && Unchanged(actual, i.actual))
    || (actual == i.effective && (effective == i.actual || Unchanged(effective, i.effective)))
    || (effective == i.actual && (actual == i.effective || Unchanged(actual, i.actual)))
    || (effective == i.saved && Unchanged(actual, i.actual))
  }

  predicate Allowed(c: Credentials, call: Call) {
    var i := Of(c, call.family);
    || Root(c)
    || match call
       case SetId(_, id) => id in Members(i)
       case SetReId(_, r, e) => ReAllowed(i, r, e)
       case SetResId(_, r, e, s) => forall x <- {r, e, s} :: x == UNSET || x in Members(i)
       case SetFsId(_, id) => id == i.fs || id in Members(i)
  }

  function ReEffect(i: Ids, actual: Id, effective: Id): Ids {
    Ids(Chosen(actual, i.actual),
        Chosen(effective, i.effective),
        if effective != UNSET && (actual != UNSET || effective != i.actual) then effective else i.saved,
        Chosen(effective, i.fs))
  }

  function Effect(i: Ids, root: bool, call: Call): Ids {
    match call
    case SetId(_, id) => Ids(if root then id else i.actual, id, if root then id else i.saved, id)
    case SetReId(_, r, e) => ReEffect(i, r, e)
    case SetResId(_, r, e, s) =>
      Ids(Chosen(r, i.actual), Chosen(e, i.effective), Chosen(s, i.saved), Chosen(e, i.fs))
    case SetFsId(_, id) => i.(fs := id)
  }

  function After(c: Credentials, call: Call): Credentials {
    if Allowed(c, call) then With(c, call.family, Effect(Of(c, call.family), Root(c), call)) else c
  }

  function AfterAll(c: Credentials, calls: seq<Call>): Credentials
    decreases |calls|
  {
    if calls == [] then c else AfterAll(After(c, calls[0]), calls[1..])
  }

  // ---- against the manual ----------------------------------------------------------------

  /** The test for setreuid(2) refuses exactly one request the manual grants: making the effective
      identity real and the saved one effective in one call, when that changes both. */
  lemma ReAllowedIff(i: Ids, actual: Id, effective: Id)
    ensures ReAllowed(i, actual, effective) <==>
            && ReGranted(i, actual, effective)
            && !(actual == i.effective != i.actual && effective == i.saved
                 && effective != i.effective && effective != i.actual && effective != UNSET && actual != UNSET)
  {
  }

  /** The saved identity is wrong exactly when the real one is set on its own and the effective and
      saved ones differ. */
  lemma ReEffectIff(i: Ids, actual: Id, effective: Id)
    ensures ReEffect(i, actual, effective) == ReManual(i, actual, effective) <==>
            !(actual != UNSET && effective == UNSET && i.saved != i.effective)
  {
  }

  // ---- every run -----------------------------------------------------------------------

  /** No call by a non-root tracee brings a new member into either set, whatever its arguments. */
  lemma StepKeeps(c: Credentials, call: Call)
    requires !Root(c)
    ensures Members(After(c, call).uid) <= Members(c.uid)
    ensures Members(After(c, call).gid) <= Members(c.gid)
  {
    var i := Of(c, call.family);
    if Allowed(c, call) {
      var j := Effect(i, false, call);
      match call
      case SetId(_, _) =>
      case SetReId(_, r, e) =>
      case SetResId(_, r, e, s) =>
        assert forall x <- {r, e, s} :: x == UNSET || x in Members(i);
        assert r in {r, e, s} && e in {r, e, s} && s in {r, e, s};
      case SetFsId(_, _) =>
      assert Members(j) <= Members(i);
    }
  }

  /** The file-system identity follows the effective one or is one of the four held before. */
  lemma FsFollows(c: Credentials, call: Call, f: Family)
    requires !Root(c)
    ensures Of(After(c, call), f).fs in Members(Of(c, f)) + {Of(c, f).fs}
    ensures Of(After(c, call), f).fs == Of(c, f).fs || call.SetFsId?
            || Of(After(c, call), f).fs == Of(After(c, call), f).effective
  {
    StepKeeps(c, call);
  }

  /** No call of the run is made by root; what the last one leaves does not matter. */
  predicate Unprivileged(c: Credentials, calls: seq<Call>)
    decreases |calls|
  {
    calls != [] ==> !Root(c) && Unprivileged(After(c, calls[0]), calls[1..])
  }

  /** As long as the effective user stays other than root, neither set gains a member and the
      file-system identities come from those held at first. */
  lemma {:induction false} RunKeeps(c: Credentials, calls: seq<Call>)
    requires Unprivileged(c, calls)
    ensures Members(AfterAll(c, calls).uid) <= Members(c.uid)
    ensures Members(AfterAll(c, calls).gid) <= Members(c.gid)
    ensures forall f :: Of(AfterAll(c, calls), f).fs in Members(Of(c, f)) + {Of(c, f).fs}
    decreases |calls|
  {
    if calls != [] {
      var d := After(c, calls[0]);
      StepKeeps(c, calls[0]);
      forall f ensures Of(d, f).fs in Members(Of(c, f)) + {Of(c, f).fs} {
        FsFollows(c, calls[0], f);
      }
      RunKeeps(d, calls[1..]);
      forall f ensures Of(AfterAll(d, calls[1..]), f).fs in Members(Of(c, f)) + {Of(c, f).fs} {
        assert Members(Of(d, f)) <= Members(Of(c, f));
      }
    }
  }

  /** Without root among the users held, no run is privileged. */
  lemma {:induction false} RootIsGone(c: Credentials, calls: seq<Call>)
    requires 0 !in Members(c.uid)
    ensures Unprivileged(c, calls)
    decreases |calls|
  {
    if calls != [] {
      StepKeeps(c, calls[0]);
      RootIsGone(After(c, calls[0]), calls[1..]);
    }
  }

  /** With 0 among the real, effective and saved users, two calls install any three identities at all. */
  lemma RootTakesAny(c: Credentials, f: Family, r: Id, e: Id, s: Id) returns (calls: seq<Call>)
    requires 0 in Members(c.uid)
    requires UNSET !in {r, e, s}
    ensures Of(AfterAll(c, calls), f) == Ids(r, e, s, e)
  {
    var up, down := SetResId(User, UNSET, 0, UNSET), SetResId(f, r, e, s);
    calls := [up, down];
    assert Allowed(c, up);
    assert Root(After(c, up));
    assert AfterAll(After(c, up), [down]) == After(After(c, up), down);
    assert calls[1..] == [down];
  }

  /** The users a tracee can ever hold: any three it holds already, or any at all when one of them
      is root.  Being non-root now is not enough: a saved or real 0 is a way back. */
  lemma {:induction false} ReachableIff(c: Credentials, r: Id, e: Id, s: Id)
    requires UNSET !in {r, e, s}
    ensures (exists calls :: AfterAll(c, calls).uid.(fs := 0) == Ids(r, e, s, 0)) <==>
            0 in Members(c.uid) || {r, e, s} <= Members(c.uid)
  {
    if 0 in Members(c.uid) {
      var calls := RootTakesAny(c, User, r, e, s);
      assert AfterAll(c, calls).uid.(fs := 0) == Ids(r, e, s, 0);
    } else if {r, e, s} <= Members(c.uid) {
      var call := SetResId(User, r, e, s);
      assert r in {r, e, s} && e in {r, e, s} && s in {r, e, s};
      assert Allowed(c, call);
      assert AfterAll(c, [call]) == AfterAll(After(c, call), [][..]);
      assert AfterAll(c, [call]).uid.(fs := 0) == Ids(r, e, s, 0);
    } else {
      forall calls ensures AfterAll(c, calls).uid.(fs := 0) != Ids(r, e, s, 0) {
        RootIsGone(c, calls);
        RunKeeps(c, calls);
        var i := AfterAll(c, calls).uid;
        assert Members(i) == {i.actual, i.effective, i.saved};
      }
    }
  }

  /** The set of users never grows, in any run, exactly when no user held is root; and so does the set
      of groups. */
  lemma {:induction false} NeverGrowsIff(c: Credentials, f: Family)
    ensures (forall calls :: Members(Of(AfterAll(c, calls), f)) <= Members(Of(c, f))) <==> 0 !in Members(c.uid)
  {
    if 0 !in Members(c.uid) {
      forall calls ensures Members(Of(AfterAll(c, calls), f)) <= Members(Of(c, f)) {
        RootIsGone(c, calls);
        RunKeeps(c, calls);
      }
    } else {
      var x := Outsider(Of(c, f));
      var calls := RootTakesAny(c, f, x, x, x);
      assert x in Members(Of(AfterAll(c, calls), f));
    }
  }

  function Outsider(i: Ids): (x: Id)
    ensures x !in Members(i) && x != UNSET
  {
    if 1 !in Members(i) then 1 else if 2 !in Members(i) then 2 else if 3 !in Members(i) then 3 else 4
  }

  /** setuid(2) by root to another user is final: no later call makes any of the four users root. */
  lemma {:induction false} DropIsFinal(c: Credentials, x: Id, calls: seq<Call>)
    requires Root(c) && x != 0
    ensures var d := AfterAll(After(c, SetId(User, x)), calls).uid; d == Ids(x, x, x, x)
  {
    RootIsGone(After(c, SetId(User, x)), calls);
    RunKeeps(After(c, SetId(User, x)), calls);
    var d := AfterAll(After(c, SetId(User, x)), calls).uid;
    assert Of(AfterAll(After(c, SetId(User, x)), calls), User) == d;
    assert Members(After(c, SetId(User, x)).uid) == {x};
    assert d.actual in Members(d) && d.effective in Members(d) && d.saved in Members(d);
  }

  /** A privileged tracee may store the reserved value as an identity: only setuid(2) does so for the
      real, effective and saved ones, and setfsuid(2) too for the one of the file system. */
  lemma UnsetStored(c: Credentials, call: Call, f: Family)
    requires UNSET !in Members(Of(c, f)) && Of(c, f).fs != UNSET
    ensures UNSET in Members(Of(After(c, call), f)) <==> Root(c) && call == SetId(f, UNSET)
    ensures Of(After(c, call), f).fs == UNSET <==> Root(c) && (call == SetId(f, UNSET) || call == SetFsId(f, UNSET))
  {
  }

  // ---- the extension's record -------------------------------------------------------------

  class Config {
    var ruid: Id
    var euid: Id
    var suid: Id
    var fsuid: Id
    var rgid: Id
    var egid: Id
    var sgid: Id
    var fsgid: Id

    function Abstract(): Credentials
      reads this
    {
      Credentials(Ids(ruid, euid, suid, fsuid), Ids(rgid, egid, sgid, fsgid))
    }

    method SetUid(arg: Word) returns (status: int)
      modifies this
      ensures var call := SetId(User, Truncated(arg));
              && Abstract() == After(old(Abstract()), call)
              && status == if Allowed(old(Abstract()), call) then 0 else -EPERM
    {
      var id := Truncated(arg);
      if !(euid == 0 || id == ruid || id == euid || id == suid) {
        return -EPERM;
      }
      if euid == 0 {
        ruid := id;
        suid := id;
      }
      euid := id;
      fsuid := id;
      return 0;
    }

    method SetGid(arg: Word) returns (status: int)
      modifies this
      ensures var call := SetId(Group, Truncated(arg));
              && Abstract() == After(old(Abstract()), call)
              && status == if Allowed(old(Abstract()), call) then 0 else -EPERM
    {
      var id := Truncated(arg);
      if !(euid == 0 || id == rgid || id == egid || id == sgid) {
        return -EPERM;
      }
      if euid == 0 {
        rgid := id;
        sgid := id;
      }
      egid := id;
      fsgid := id;
      return 0;
    }

    method SetReUid(arg1: Word, arg2: Word) returns (status: int)
      modifies this
      ensures var call := SetReId(User, Truncated(arg1), Truncated(arg2));
              && Abstract() == After(old(Abstract()), call)
              && status == if Allowed(old(Abstract()), call) then 0 else -EPERM
    {
      var r, e := Truncated(arg1), Truncated(arg2);
      if !(euid == 0 || ReAllowed(Abstract().uid, r, e)) {
        return -EPERM;
      }
      if e != UNSET {
        if e != ruid {
          suid := e;
        }
        euid := e;
        fsuid := e;
      }
      if r != UNSET {
        if e != UNSET {
          suid := e;
        }
        ruid := r;
      }
      return 0;
    }

    method SetReGid(arg1: Word, arg2: Word) returns (status: int)
      modifies this
      ensures var call := SetReId(Group, Truncated(arg1), Truncated(arg2));
              && Abstract() == After(old(Abstract()), call)
              && status == if Allowed(old(Abstract()), call) then 0 else -EPERM
    {
      var r, e := Truncated(arg1), Truncated(arg2);
      if !(euid == 0 || ReAllowed(Abstract().gid, r, e)) {
        return -EPERM;
      }
      if e != UNSET {
        if e != rgid {
          sgid := e;
        }
        egid := e;
        fsgid := e;
      }
      if r != UNSET {
        if e != UNSET {
          sgid := e;
        }
        rgid := r;
      }
      return 0;
    }

    method SetResUid(arg1: Word, arg2: Word, arg3: Word) returns (status: int)
      modifies this
      ensures var call := SetResId(User, Truncated(arg1), Truncated(arg2), Truncated(arg3));
              && Abstract() == After(old(Abstract()), call)
              && status == if Allowed(old(Abstract()), call) then 0 else -EPERM
    {
      var r, e, s := Truncated(arg1), Truncated(arg2), Truncated(arg3);
      var all := Members(Abstract().uid);
      if !(euid == 0 || ((r == UNSET || r in all) && (e == UNSET || e in all) && (s == UNSET || s in all))) {
        return -EPERM;
      }
      if r != UNSET {
        ruid := r;
      }
      if e != UNSET {
        euid := e;
        fsuid := e;
      }
      if s != UNSET {
        suid := s;
      }
      return 0;
    }

    method SetResGid(arg1: Word, arg2: Word, arg3: Word) returns (status: int)
      modifies this
      ensures var call := SetResId(Group, Truncated(arg1), Truncated(arg2), Truncated(arg3));
              && Abstract() == After(old(Abstract()), call)
              && status == if Allowed(old(Abstract()), call) then 0 else -EPERM
    {
      var r, e, s := Truncated(arg1), Truncated(arg2), Truncated(arg3);
      var all := Members(Abstract().gid);
      if !(euid == 0 || ((r == UNSET || r in all) && (e == UNSET || e in all) && (s == UNSET || s in all))) {
        return -EPERM;
      }
      if r != UNSET {
        rgid := r;
      }
      if e != UNSET {
        egid := e;
        fsgid := e;
      }
      if s != UNSET {
        sgid := s;
      }
      return 0;
    }

    /** Returns the identity in force before the call, whether or not it was replaced. */
    method SetFsUid(arg: Word) returns (before: Id)
      modifies this
      ensures Abstract() == After(old(Abstract()), SetFsId(User, Truncated(arg)))
      ensures before == old(fsuid)
    {
      var id := Truncated(arg);
      before := fsuid;
      if euid == 0 || id == fsuid || id == ruid || id == euid || id == suid {
        fsuid := id;
      }
    }

    method SetFsGid(arg: Word) returns (before: Id)
      modifies this
      ensures Abstract() == After(old(Abstract()), SetFsId(Group, Truncated(arg)))
      ensures before == old(fsgid)
    {
      var id := Truncated(arg);
      before := fsgid;
      if euid == 0 || id == fsgid || id == rgid || id == egid || id == sgid {
        fsgid := id;
      }
    }
  }
}
