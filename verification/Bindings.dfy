/** The two sorted lists of bindings of src/path/binding.c, and the translation of paths between
    the guest and the host (src/path/path.c). */
module Bindings {
  import opened Common
  import opened Paths

  /** Both sides of a binding are canonical paths, kept as the strings they render to. */
  datatype Binding = Binding(host: Path, guest: Path, needSubstitution: bool)
  datatype Side = Guest | Host

  function PathOf(b: Binding, side: Side): Path {
    if side == Guest then b.guest else b.host
  }

  predicate ValidBinding(b: Binding) {
    ValidPath(b.host) && ValidPath(b.guest) && b.needSubstitution == (b.host != b.guest)
  }

  predicate ValidBindings(bs: seq<Binding>) {
    forall i :: 0 <= i < |bs| ==> ValidBinding(bs[i])
  }

  /** The paths of a list, on one side. */
  function PathsOf(bs: seq<Binding>, side: Side): (ps: seq<Path>)
    ensures |ps| == |bs| && forall i :: 0 <= i < |bs| ==> ps[i] == PathOf(bs[i], side)
  {
    seq(|bs|, i requires 0 <= i < |bs| => PathOf(bs[i], side))
  }

  predicate Contains(p: Path, q: Path) {
    p <= q
  }

  predicate StrictlyContains(p: Path, q: Path) {
    Contains(p, q) && p != q
  }

  /** No element strictly contains a later one. */
  ghost predicate Sorted(ps: seq<Path>) {
    forall i, j :: 0 <= i < j < |ps| ==> !StrictlyContains(ps[i], ps[j])
  }

  /** compare_paths on the strings of two canonical paths. */
  method CompareSides(p: Path, q: Path) returns (c: Comparison)
    requires ValidPath(p) && ValidPath(q)
    ensures c == Compare(p, q)
  {
    ComparePathsMeaning(p, q);
    c := ComparePaths(Render(p), Render(q));
  }

  // ----- Insertion -----

  /** Position after the last element the new path contains or equals. */
  function InsertionPoint(ps: seq<Path>, p: Path): (k: nat)
    ensures k <= |ps|
    ensures forall i :: k <= i < |ps| ==> !Contains(p, ps[i])
    ensures k > 0 ==> Contains(p, ps[k - 1])
  {
    if ps == [] then 0
    else if Contains(p, ps[|ps| - 1]) then |ps|
    else InsertionPoint(ps[..|ps| - 1], p)
  }

  function InsertAt<T>(s: seq<T>, k: nat, x: T): (t: seq<T>)
    requires k <= |s|
    ensures |t| == |s| + 1
    ensures forall i :: 0 <= i < |t| ==> t[i] == if i < k then s[i] else if i == k then x else s[i - 1]
  {
    s[..k] + [x] + s[k..]
  }

  function RemoveAt<T>(s: seq<T>, k: nat): (t: seq<T>)
    requires k < |s|
    ensures |t| == |s| - 1
    ensures forall i :: 0 <= i < |t| ==> t[i] == s[if i < k then i else i + 1]
  {
    s[..k] + s[k + 1..]
  }

  lemma PrefixesComparable(p: Path, q: Path, r: Path)
    requires Contains(p, r) && Contains(q, r)
    ensures Contains(p, q) || Contains(q, p)
  {
    assert |p| <= |q| ==> p == q[..|p|];
    assert |q| <= |p| ==> q == p[..|q|];
  }

  /** Inserting after the last contained element keeps a list sorted: an element before the new
      one that strictly contained it would strictly contain that last element too. */
  lemma {:induction false} InsertSorted(ps: seq<Path>, p: Path)
    requires Sorted(ps)
    ensures Sorted(InsertAt(ps, InsertionPoint(ps, p), p))
  {
    var k := InsertionPoint(ps, p);
    forall i | 0 <= i < k ensures !StrictlyContains(ps[i], p) {
      var last := ps[k - 1];
      assert i < k - 1 ==> !StrictlyContains(ps[i], last);
    }
  }

  lemma RemoveSorted(ps: seq<Path>, k: nat)
    requires Sorted(ps) && k < |ps|
    ensures Sorted(RemoveAt(ps, k))
  {
    var t := RemoveAt(ps, k);
    forall i, j | 0 <= i < j < |t| ensures !StrictlyContains(t[i], t[j]) {
      var i', j' := if i < k then i else i + 1, if j < k then j else j + 1;
      assert !StrictlyContains(ps[i'], ps[j']);
    }
  }

  lemma InsertMultiset<T>(s: seq<T>, k: nat, x: T)
    requires k <= |s|
    ensures multiset(InsertAt(s, k, x)) == multiset(s) + multiset{x}
  {
    assert s == s[..k] + s[k..];
  }

  lemma RemoveMultiset<T>(s: seq<T>, k: nat)
    requires k < |s|
    ensures multiset(RemoveAt(s, k)) == multiset(s) - multiset{s[k]}
  {
    assert s == s[..k] + [s[k]] + s[k + 1..];
  }

  // ----- Search -----

  /** First element of a list that contains the path; the length of the list if none does. */
  function FirstMatch(ps: seq<Path>, p: Path): (k: nat)
    ensures k <= |ps|
    ensures k < |ps| ==> Contains(ps[k], p)
    ensures forall i :: 0 <= i < k ==> !Contains(ps[i], p)
  {
    if ps == [] || Contains(ps[0], p) then 0 else 1 + FirstMatch(ps[1..], p)
  }

  /** In a sorted list, the first element that contains a path is a deepest one. */
  lemma {:induction false} FirstMatchDeepest(ps: seq<Path>, p: Path, j: nat)
    requires Sorted(ps) && j < |ps| && Contains(ps[j], p)
    ensures FirstMatch(ps, p) < |ps| && Contains(ps[j], ps[FirstMatch(ps, p)])
  {
    var k := FirstMatch(ps, p);
    PrefixesComparable(ps[k], ps[j], p);
    assert k < j ==> !StrictlyContains(ps[k], ps[j]);
  }

  // ----- The lists of a tracee -----

  /** What every reachable pair of lists satisfies. */
  ghost predicate ValidLists(guest: seq<Binding>, host: seq<Binding>) {
    && ValidBindings(guest) && ValidBindings(host)
    && multiset(guest) == multiset(host)
    && Sorted(PathsOf(guest, Guest)) && Sorted(PathsOf(host, Host))
    && DistinctGuests(guest)
    && guest != [] && guest[|guest| - 1].guest == []
  }

  ghost predicate DistinctGuests(bs: seq<Binding>) {
    forall i, j :: 0 <= i < j < |bs| ==> bs[i].guest != bs[j].guest
  }

  function IndexOf(bs: seq<Binding>, b: Binding): (k: nat)
    requires b in bs
    ensures k < |bs| && bs[k] == b
  {
    if bs[0] == b then 0 else 1 + IndexOf(bs[1..], b)
  }

  /** The path is in the guest rootfs, and the rootfs is not the whole host. */
  predicate InRootfs(guest: seq<Binding>, p: Path)
    requires guest != []
  {
    var root := guest[|guest| - 1].host;
    root != [] && Contains(root, p)
  }

  /** get_binding: the first match, except that nothing on the host side matches in the rootfs. */
  function Lookup(guest: seq<Binding>, host: seq<Binding>, side: Side, p: Path): Option<Binding>
    requires guest != []
  {
    var bs := if side == Guest then guest else host;
    var k := FirstMatch(PathsOf(bs, side), p);
    if k == |bs| || (side == Host && InRootfs(guest, p)) then None else Some(bs[k])
  }

  lemma {:induction false} FirstMatchIs(ps: seq<Path>, p: Path, k: nat)
    requires k < |ps| && Contains(ps[k], p) && forall i :: 0 <= i < k ==> !Contains(ps[i], p)
    ensures FirstMatch(ps, p) == k
  {
  }

  lemma LookupIs(guest: seq<Binding>, host: seq<Binding>, side: Side, p: Path, bs: seq<Binding>, k: nat)
    requires guest != [] && bs == (if side == Guest then guest else host) && k < |bs|
    requires side == Host ==> !InRootfs(guest, p)
    requires var ps := PathsOf(bs, side); Contains(ps[k], p) && forall i :: 0 <= i < k ==> !Contains(ps[i], p)
    ensures Lookup(guest, host, side, p) == Some(bs[k])
  {
    FirstMatchIs(PathsOf(bs, side), p, k);
  }

  lemma {:induction false} NoMatch(ps: seq<Path>, p: Path)
    requires forall i :: 0 <= i < |ps| ==> !Contains(ps[i], p)
    ensures FirstMatch(ps, p) == |ps|
  {
  }

  // ----- Inserting a binding in both lists -----

  /** Position of the element with the given path; the length of the list if there is none. */
  function Same(ps: seq<Path>, p: Path): (k: nat)
    ensures k <= |ps| && (k < |ps| ==> ps[k] == p)
    ensures forall i :: 0 <= i < k ==> ps[i] != p
  {
    if ps == [] || ps[0] == p then 0 else 1 + Same(ps[1..], p)
  }

  /** On the guest side, a binding replaces the one bound to the same path, in both lists. */
  function InsertGuest(guest: seq<Binding>, host: seq<Binding>, b: Binding): (seq<Binding>, seq<Binding>)
    requires multiset(guest) == multiset(host)
  {
    var ps := PathsOf(guest, Guest);
    var p := PathOf(b, Guest);
    var k := Same(ps, p);
    if k < |guest| then
      assert guest[k] in multiset(guest);
      (guest[k := b], RemoveAt(host, IndexOf(host, guest[k])))
    else
      (InsertAt(guest, InsertionPoint(ps, p), b), host)
  }

  function InsertHost(host: seq<Binding>, b: Binding): seq<Binding> {
    InsertAt(host, InsertionPoint(PathsOf(host, Host), PathOf(b, Host)), b)
  }

  /** Once the guest side is done, the host side lacks the new binding only. */
  ghost predicate HalfValid(guest: seq<Binding>, host: seq<Binding>, b: Binding) {
    && ValidBindings(guest) && ValidBindings(host)
    && multiset(guest) == multiset(host) + multiset{b}
    && Sorted(PathsOf(guest, Guest)) && Sorted(PathsOf(host, Host))
    && DistinctGuests(guest)
    && guest != [] && guest[|guest| - 1].guest == []
  }

  lemma GuestReplaced(guest: seq<Binding>, host: seq<Binding>, b: Binding, k: nat, i: nat)
    requires ValidLists(guest, host) && ValidBinding(b)
    requires k < |guest| && guest[k].guest == b.guest && i < |host| && host[i] == guest[k]
    ensures HalfValid(guest[k := b], RemoveAt(host, i), b)
  {
    assert PathsOf(guest[k := b], Guest) == PathsOf(guest, Guest);
    RemovedHost(host, i);
    ReplaceMultiset(guest, k, b);
    RemoveMultiset(host, i);
  }

  lemma GuestInserted(guest: seq<Binding>, host: seq<Binding>, b: Binding)
    requires ValidLists(guest, host) && ValidBinding(b)
    requires Same(PathsOf(guest, Guest), b.guest) == |guest|
    ensures HalfValid(InsertAt(guest, InsertionPoint(PathsOf(guest, Guest), b.guest), b), host, b)
  {
    InsertedGuest(guest, b);
    InsertMultiset(guest, InsertionPoint(PathsOf(guest, Guest), b.guest), b);
  }

  lemma HostInserted(guest: seq<Binding>, host: seq<Binding>, b: Binding)
    requires HalfValid(guest, host, b) && ValidBinding(b)
    ensures ValidLists(guest, InsertHost(host, b))
  {
    InsertedHost(host, b);
    InsertMultiset(host, InsertionPoint(PathsOf(host, Host), b.host), b);
  }

  lemma GuestSideDone(guest: seq<Binding>, host: seq<Binding>, b: Binding)
    requires ValidLists(guest, host) && ValidBinding(b)
    ensures HalfValid(InsertGuest(guest, host, b).0, InsertGuest(guest, host, b).1, b)
  {
    var k := Same(PathsOf(guest, Guest), b.guest);
    if k < |guest| {
      assert guest[k] in multiset(guest);
      GuestReplaced(guest, host, b, k, IndexOf(host, guest[k]));
    } else {
      GuestInserted(guest, host, b);
    }
  }

  /** Main invariant: inserting or replacing a binding keeps both lists sorted, with the same
      bindings, one binding for a guest path, and "/" last on the guest side. */
  lemma InsertKeepsValid(guest: seq<Binding>, host: seq<Binding>, b: Binding)
    requires ValidLists(guest, host) && ValidBinding(b)
    ensures var (guest', host') := InsertGuest(guest, host, b);
            ValidLists(guest', InsertHost(host', b)) && ValidBindings(host')
  {
    GuestSideDone(guest, host, b);
    var (guest', host') := InsertGuest(guest, host, b);
    HostInserted(guest', host', b);
  }

  lemma ReplaceMultiset<T>(s: seq<T>, k: nat, x: T)
    requires k < |s|
    ensures multiset(s[k := x]) == multiset(s) - multiset{s[k]} + multiset{x}
  {
  }

  lemma RemovedHost(host: seq<Binding>, i: nat)
    requires ValidBindings(host) && Sorted(PathsOf(host, Host)) && i < |host|
    ensures ValidBindings(RemoveAt(host, i)) && Sorted(PathsOf(RemoveAt(host, i), Host))
  {
    RemoveSorted(PathsOf(host, Host), i);
    PathsOfRemoved(host, Host, i);
  }

  lemma PathsOfRemoved(bs: seq<Binding>, side: Side, i: nat)
    requires i < |bs|
    ensures PathsOf(RemoveAt(bs, i), side) == RemoveAt(PathsOf(bs, side), i)
  {
  }

  lemma PathsOfInserted(bs: seq<Binding>, side: Side, k: nat, b: Binding)
    requires k <= |bs|
    ensures PathsOf(InsertAt(bs, k, b), side) == InsertAt(PathsOf(bs, side), k, PathOf(b, side))
  {
  }

  lemma ValidInserted(bs: seq<Binding>, k: nat, b: Binding)
    requires k <= |bs| && ValidBindings(bs) && ValidBinding(b)
    ensures ValidBindings(InsertAt(bs, k, b))
  {
  }

  lemma DistinctInserted(bs: seq<Binding>, k: nat, b: Binding)
    requires k <= |bs| && DistinctGuests(bs) && forall i :: 0 <= i < |bs| ==> bs[i].guest != b.guest
    ensures DistinctGuests(InsertAt(bs, k, b))
  {
  }

  lemma InsertedGuest(guest: seq<Binding>, b: Binding)
    requires ValidBindings(guest) && ValidBinding(b) && Sorted(PathsOf(guest, Guest)) && DistinctGuests(guest)
    requires guest != [] && guest[|guest| - 1].guest == []
    requires Same(PathsOf(guest, Guest), b.guest) == |guest|
    ensures var t := InsertAt(guest, InsertionPoint(PathsOf(guest, Guest), b.guest), b);
            ValidBindings(t) && Sorted(PathsOf(t, Guest)) && DistinctGuests(t) && t[|t| - 1].guest == []
  {
    var ps := PathsOf(guest, Guest);
    var k := InsertionPoint(ps, b.guest);
    InsertSorted(ps, b.guest);
    PathsOfInserted(guest, Guest, k, b);
    ValidInserted(guest, k, b);
    assert forall i :: 0 <= i < |guest| ==> ps[i] != b.guest;
    DistinctInserted(guest, k, b);
    RootStaysLast(ps, b.guest);
  }

  lemma {:induction false} RootStaysLast(ps: seq<Path>, p: Path)
    requires ps != [] && ps[|ps| - 1] == [] && p != []
    ensures InsertionPoint(ps, p) < |ps|
  {
  }

  lemma InsertedHost(host: seq<Binding>, b: Binding)
    requires ValidBindings(host) && ValidBinding(b) && Sorted(PathsOf(host, Host))
    ensures ValidBindings(InsertHost(host, b)) && Sorted(PathsOf(InsertHost(host, b), Host))
  {
    var k := InsertionPoint(PathsOf(host, Host), b.host);
    InsertSorted(PathsOf(host, Host), b.host);
    PathsOfInserted(host, Host, k, b);
    ValidInserted(host, k, b);
  }

  /** Over any sequence of insertions. */
  function InsertAll(guest: seq<Binding>, host: seq<Binding>, bs: seq<Binding>): (r: (seq<Binding>, seq<Binding>))
    requires ValidLists(guest, host) && ValidBindings(bs)
    ensures ValidLists(r.0, r.1)
  {
    if bs == [] then (guest, host)
    else
      var (guest1, host1) := InsertAll(guest, host, bs[..|bs| - 1]);
      var b := bs[|bs| - 1];
      InsertKeepsValid(guest1, host1, b);
      var (guest2, host2) := InsertGuest(guest1, host1, b);
      (guest2, InsertHost(host2, b))
  }

  /** Longest prefix match: for any path of the guest, get_binding finds the binding whose guest
      path is the deepest one that contains it, and it is the only one. */
  lemma LookupDeepest(guest: seq<Binding>, host: seq<Binding>, p: Path)
    requires ValidLists(guest, host)
    ensures var r := Lookup(guest, host, Guest, p);
            && r.Some? && r.value in guest && Contains(PathOf(r.value, Guest), p)
            && forall b :: b in guest && Contains(PathOf(b, Guest), p) ==>
                 && Contains(PathOf(b, Guest), PathOf(r.value, Guest))
                 && (PathOf(b, Guest) == PathOf(r.value, Guest) ==> b == r.value)
  {
    var ps := PathsOf(guest, Guest);
    assert Contains(ps[|guest| - 1], p);
    FirstMatchDeepest(ps, p, |guest| - 1);
    var k := FirstMatch(ps, p);
    forall b | b in guest && Contains(PathOf(b, Guest), p)
      ensures Contains(PathOf(b, Guest), ps[k])
      ensures PathOf(b, Guest) == ps[k] ==> b == guest[k]
    {
      var j :| 0 <= j < |guest| && guest[j] == b;
      FirstMatchDeepest(ps, p, j);
      assert j != k ==> PathOf(guest[j], Guest) != PathOf(guest[k], Guest);
    }
  }

  // ----- Translation and back -----

  /** The path once the binding found for it is substituted, if there is room. */
  function Substituted(b: Binding, side: Side, p: Path): Path
    requires Contains(PathOf(b, side), p)
  {
    var before, after := PathOf(b, side), PathOf(b, if side == Guest then Host else Guest);
    if b.needSubstitution && SubstitutionFits(p, before, after) then after + p[|before|..] else p
  }

  lemma LookupValid(guest: seq<Binding>, host: seq<Binding>, side: Side, p: Path)
    requires ValidLists(guest, host) && Lookup(guest, host, side, p).Some?
    ensures var b := Lookup(guest, host, side, p).value;
            ValidBinding(b) && Contains(PathOf(b, side), p)
  {
  }

  /** A non-empty rest of a path, without its leading components. */
  lemma {:induction false} RemovePrefix(p: Path, root: Path)
    requires ValidPath(p) && Contains(root, p) && root != p
    ensures |Tail(root)| <= |Render(p)| && Render(p)[|Tail(root)|..] == Render(p[|root|..])
    ensures |Render(root)| == 1 <==> root == []
  {
    var rest := p[|root|..];
    assert p == root + rest;
    TailAppend(root, rest);
    assert forall i :: 0 <= i < |root| ==> root[i] == p[i];
    LengthOfTail(root);
  }

  /** substitute_binding on the guest side; a path that would be too long is left as it is. */
  function Translated(guest: seq<Binding>, host: seq<Binding>, p: Path): Path
    requires ValidLists(guest, host)
  {
    LookupDeepest(guest, host, p);
    Substituted(Lookup(guest, host, Guest, p).value, Guest, p)
  }

  /** detranslate_path without a referrer: None stands for -EPERM. */
  function Detranslated(guest: seq<Binding>, host: seq<Binding>, p: Path): Option<Path>
    requires ValidLists(guest, host)
  {
    var r := Lookup(guest, host, Host, p);
    var root := guest[|guest| - 1].host;
    if r.Some? then Some(Substituted(r.value, Host, p))
    else if Contains(root, p) then Some(p[|root|..])
    else None
  }

  /** Whether a path of the guest comes back from its translation `t`, in terms of the binding `b` it is
      translated by.  In the rootfs, the rootfs is removed: it has to be what the binding prepends.
      Elsewhere, the binding that is found on the host side has to be the same one if it substitutes
      anything, or else nothing may have been substituted on the way. */
  predicate Returns(guest: seq<Binding>, host: seq<Binding>, p: Path)
    requires ValidLists(guest, host)
  {
    LookupDeepest(guest, host, p);
    var b, t := Lookup(guest, host, Guest, p).value, Translated(guest, host, p);
    if InRootfs(guest, t) then TranslationFits(guest, host, p) && b.host == guest[|guest| - 1].host + b.guest
    else
      match Lookup(guest, host, Host, t)
      case None => false
      case Some(c) =>
        if c.needSubstitution && SubstitutionFits(t, c.host, c.guest) then TranslationFits(guest, host, p) && c == b
        else !TranslationFits(guest, host, p) || b.host == b.guest
  }

  lemma CancelSuffix(a: Path, b: Path, rest: Path)
    requires a + rest == b + rest
    ensures a == b
  {
    assert a == (a + rest)[..|a|] && b == (b + rest)[..|b|];
  }

  lemma CancelPrefix(a: Path, b: Path, c: Path)
    requires a + b == a + c
    ensures b == c
  {
    assert b == (a + b)[|a|..] && c == (a + c)[|a|..];
  }

  lemma TranslatedIs(guest: seq<Binding>, host: seq<Binding>, p: Path)
    requires ValidLists(guest, host)
    ensures Lookup(guest, host, Guest, p).Some?
    ensures var b := Lookup(guest, host, Guest, p).value;
            && b in guest && ValidBinding(b) && Contains(b.guest, p)
            && Translated(guest, host, p) == if TranslationFits(guest, host, p) then b.host + p[|b.guest|..] else p
  {
    LookupDeepest(guest, host, p);
    LookupValid(guest, host, Guest, p);
  }

  /** On the host side too, the binding that is found is a deepest one. */
  lemma HostDeepest(guest: seq<Binding>, host: seq<Binding>, t: Path, b: Binding)
    requires ValidLists(guest, host) && !InRootfs(guest, t) && b in guest && Contains(b.host, t)
    ensures var r := Lookup(guest, host, Host, t);
            r.Some? && r.value in guest && Contains(r.value.host, t) && Contains(b.host, r.value.host)
  {
    var ps := PathsOf(host, Host);
    var k :| 0 <= k < |guest| && guest[k] == b;
    var j := HostIndex(guest, host, k);
    FirstMatchDeepest(ps, t, j);
    var i := GuestIndex(guest, host, FirstMatch(ps, t));
  }

  /** Without the rootfs, a path of a binding is what it was if and only if the binding only prepends
      the rootfs. */
  lemma RootRemoved(root: Path, b: Binding, p: Path)
    requires Contains(b.guest, p) && Contains(root, b.host + p[|b.guest|..])
    ensures (b.host + p[|b.guest|..])[|root|..] == p <==> b.host == root + b.guest
  {
    var rest := p[|b.guest|..];
    var t := b.host + rest;
    assert p == b.guest + rest && t == root + t[|root|..];
    assert root + p == (root + b.guest) + rest;
    if t[|root|..] == p {
      CancelSuffix(b.host, root + b.guest, rest);
    } else if b.host == root + b.guest {
      CancelPrefix(root, t[|root|..], p);
    }
  }

  /** Another binding gives another path: the one of the guest side is the deepest there, and the one
      of the host side is deeper here. */
  lemma MovedElsewhere(guest: seq<Binding>, b: Binding, c: Binding, p: Path)
    requires b in guest && c in guest && DistinctGuests(guest) && Contains(b.guest, p)
    requires Contains(c.guest, p) ==> Contains(c.guest, b.guest)
    requires Contains(b.host, c.host) && Contains(c.host, b.host + p[|b.guest|..])
    ensures c.guest + (b.host + p[|b.guest|..])[|c.host|..] == p <==> c == b
  {
    var rest := p[|b.guest|..];
    assert p == b.guest + rest && (b.host + rest)[|b.host|..] == rest;
    if c.guest + (b.host + rest)[|c.host|..] == p {
      assert c.guest == p[..|c.guest|];
      assert c.guest == b.guest;
    }
  }

  /** Main theorem: the exact condition for a translated path to be detranslated to itself, whatever
      the bindings. */
  lemma RoundTripIff(guest: seq<Binding>, host: seq<Binding>, p: Path)
    requires ValidLists(guest, host)
    ensures Detranslated(guest, host, Translated(guest, host, p)) == Some(p) <==> Returns(guest, host, p)
  {
    if !TranslationFits(guest, host, p) {
      TranslatedIs(guest, host, p);
      UnchangedIff(guest, host, p);
    } else if InRootfs(guest, Translated(guest, host, p)) {
      RootfsIff(guest, host, p);
    } else {
      ElsewhereIff(guest, host, p);
    }
  }

  lemma RootfsIff(guest: seq<Binding>, host: seq<Binding>, p: Path)
    requires ValidLists(guest, host) && TranslationFits(guest, host, p)
    requires InRootfs(guest, Translated(guest, host, p))
    ensures Detranslated(guest, host, Translated(guest, host, p)) == Some(p) <==> Returns(guest, host, p)
  {
    TranslatedIs(guest, host, p);
    RootRemoved(guest[|guest| - 1].host, Lookup(guest, host, Guest, p).value, p);
  }

  /** A path that is too long to translate is left as it is: it comes back if nothing changes it. */
  lemma UnchangedIff(guest: seq<Binding>, host: seq<Binding>, p: Path)
    requires ValidLists(guest, host) && !TranslationFits(guest, host, p) && Translated(guest, host, p) == p
    ensures Detranslated(guest, host, p) == Some(p) <==> Returns(guest, host, p)
  {
    var r := Lookup(guest, host, Host, p);
    if r.Some? {
      LookupValid(guest, host, Host, p);
      SubstitutedChanges(r.value, p);
    } else {
      NoBinding(guest, host, p);
    }
  }

  lemma SubstitutedChanges(c: Binding, p: Path)
    requires ValidBinding(c) && Contains(c.host, p)
    ensures Substituted(c, Host, p) == p <==> !(c.needSubstitution && SubstitutionFits(p, c.host, c.guest))
  {
    assert p == c.host + p[|c.host|..];
    if c.guest + p[|c.host|..] == p {
      CancelSuffix(c.guest, c.host, p[|c.host|..]);
    }
  }

  lemma NoBinding(guest: seq<Binding>, host: seq<Binding>, p: Path)
    requires ValidLists(guest, host) && Lookup(guest, host, Host, p).None?
    ensures Detranslated(guest, host, p) != Some(p)
  {
    var root := guest[|guest| - 1];
    if Contains(root.host, p) {
      if InRootfs(guest, p) {
        assert |p[|root.host|..]| < |p|;
      } else {
        HostDeepest(guest, host, p, root);
      }
    }
  }

  lemma ElsewhereIff(guest: seq<Binding>, host: seq<Binding>, p: Path)
    requires ValidLists(guest, host) && TranslationFits(guest, host, p)
    requires !InRootfs(guest, Translated(guest, host, p))
    ensures Detranslated(guest, host, Translated(guest, host, p)) == Some(p) <==> Returns(guest, host, p)
  {
    TranslatedIs(guest, host, p);
    LookupDeepest(guest, host, p);
    var b := Lookup(guest, host, Guest, p).value;
    var t := b.host + p[|b.guest|..];
    HostDeepest(guest, host, t, b);
    MovedElsewhere(guest, b, Lookup(guest, host, Host, t).value, p);
    UnmovedIff(b, p);
  }

  lemma UnmovedIff(b: Binding, p: Path)
    requires Contains(b.guest, p)
    ensures b.host + p[|b.guest|..] == p <==> b.host == b.guest
  {
    assert p == b.guest + p[|b.guest|..];
    if b.host + p[|b.guest|..] == p {
      CancelSuffix(b.host, b.guest, p[|b.guest|..]);
    }
  }

  // ----- Where a path does not come back -----

  predicate Comparable(p: Path, q: Path) {
    Contains(p, q) || Contains(q, p)
  }

  const NAME_MAX: nat := 255

  predicate Short(p: Path) {
    ValidPath(p) && |p| <= 3 && forall i :: 0 <= i < |p| ==> |p[i]| <= NAME_MAX
  }

  lemma {:induction false} ShortTail(p: Path)
    requires forall i :: 0 <= i < |p| ==> |p[i]| <= NAME_MAX
    ensures |Tail(p)| <= (NAME_MAX + 1) * |p|
  {
    if p != [] {
      ShortTail(p[1..]);
    }
  }

  lemma {:induction false} ShortFits(p: Path, before: Path, after: Path)
    requires Short(p) && Short(after) && before != []
    ensures SubstitutionFits(p, before, after)
  {
    ShortTail(p);
    ShortTail(after);
  }

  lemma NestedLists(outer: Binding, inner: Binding, root: Binding)
    requires ValidBinding(outer) && ValidBinding(inner) && ValidBinding(root)
    requires StrictlyContains(outer.host, inner.host) && !Comparable(outer.host, root.host) && !Comparable(inner.host, root.host)
    requires !Comparable(outer.guest, inner.guest) && outer.guest != [] && inner.guest != [] && root.guest == []
    ensures ValidLists([outer, inner, root], [inner, outer, root])
  {
    var guest, host := [outer, inner, root], [inner, outer, root];
    PathsOfThree(outer, inner, root, Guest);
    PathsOfThree(inner, outer, root, Host);
    SortedThree(outer.guest, inner.guest, []);
    SortedThree(inner.host, outer.host, root.host);
    SwapMultiset(outer, inner, root);
    ValidThree(outer, inner, root);
    ValidThree(inner, outer, root);
  }

  lemma ValidThree(a: Binding, b: Binding, c: Binding)
    requires ValidBinding(a) && ValidBinding(b) && ValidBinding(c)
    ensures ValidBindings([a, b, c])
    ensures a.guest != b.guest && a.guest != c.guest && b.guest != c.guest ==> DistinctGuests([a, b, c])
  {
  }

  lemma PathsOfThree(a: Binding, b: Binding, c: Binding, side: Side)
    ensures PathsOf([a, b, c], side) == [PathOf(a, side), PathOf(b, side), PathOf(c, side)]
  {
  }

  lemma SortedThree(p: Path, q: Path, r: Path)
    requires !StrictlyContains(p, q) && !StrictlyContains(p, r) && !StrictlyContains(q, r)
    ensures Sorted([p, q, r])
  {
  }

  lemma SwapMultiset<T>(a: T, b: T, c: T)
    ensures multiset([a, b, c]) == multiset([b, a, c])
  {
  }

  lemma Apart(x: Name, y: Name, p: Path, q: Path)
    requires x != y && p != [] && q != [] && p[0] == x && q[0] == y
    ensures !Comparable(p, q)
  {
  }

  /** Two bindings of the host, one inside the other: what the outer one shows of the inner one goes
      back to the guest side of the inner one. */
  lemma NestedHostsFail(x: Name, y: Name, g: Name, q: Name, r: Name)
    requires Short([x, y]) && Short([g]) && Short([q]) && Short([r]) && x != g && g != q && x != r
    ensures var outer, inner, root := Binding([x], [g], true), Binding([x, y], [q], true), Binding([r], [], true);
            var guest, host := [outer, inner, root], [inner, outer, root];
            && ValidLists(guest, host)
            && Translated(guest, host, [g, y]) == [x, y]
            && Detranslated(guest, host, [x, y]) == Some([q])
  {
    var outer, inner, root := Binding([x], [g], true), Binding([x, y], [q], true), Binding([r], [], true);
    var guest, host := [outer, inner, root], [inner, outer, root];
    NestedBindings(x, y, g, q, r);
    Apart(x, r, [x], [r]);
    Apart(x, r, [x, y], [r]);
    Apart(g, q, [g], [q]);
    NestedLists(outer, inner, root);
    FirstMatchIs(PathsOf(guest, Guest), [g, y], 0);
    FirstMatchIs(PathsOf(host, Host), [x, y], 0);
    assert [g, y][1..] == [y] && [x] + [y] == [x, y];
    assert [x, y][2..] == [] && [q] + [] == [q];
  }

  lemma NestedBindings(x: Name, y: Name, g: Name, q: Name, r: Name)
    requires Short([x, y]) && Short([g]) && Short([q]) && Short([r]) && x != g && g != q && x != r
    ensures ValidBinding(Binding([x], [g], true)) && ValidBinding(Binding([x, y], [q], true)) && ValidBinding(Binding([r], [], true))
    ensures StrictlyContains([x], [x, y])
    ensures SubstitutionFits([g, y], [g], [x]) && SubstitutionFits([x, y], [x, y], [q])
  {
    assert [x, y][0] == x && [x, y][1] == y && [g][0] == g && [q][0] == q && [r][0] == r;
    assert Short([g, y]) && Short([x]);
    ShortFits([g, y], [g], [x]);
    ShortFits([x, y], [x, y], [q]);
  }

  /** A directory of the rootfs bound elsewhere in the guest: the way back is the one of the rootfs. */
  lemma InsideRootfsFails(r: Name, d: Name, m: Name, a: Name)
    requires Short([r, d, a]) && Short([m]) && d != m
    ensures var bs := [Binding([r, d], [m], true), Binding([r], [], true)];
            && ValidLists(bs, bs)
            && Translated(bs, bs, [m, a]) == [r, d, a]
            && Detranslated(bs, bs, [r, d, a]) == Some([d, a]) && [d, a] != [m, a]
  {
    var bs := [Binding([r, d], [m], true), Binding([r], [], true)];
    assert PathsOf(bs, Guest) == [[m], []] && PathsOf(bs, Host) == [[r, d], [r]];
    assert [r, d, a][0] == r && [r, d, a][1] == d && [r, d, a][2] == a && [m][0] == m && [m, a][0] == m;
    assert Short([m, a]) && Short([r, d]);
    assert ValidLists(bs, bs);
    FirstMatchIs(PathsOf(bs, Guest), [m, a], 0);
    ShortFits([m, a], [m], [r, d]);
    assert [m, a][1..] == [a] && [r, d] + [a] == [r, d, a] && [r, d, a][1..] == [d, a] && [d, a][0] == d;
  }

  /** A rootfs inside a directory that is bound to itself, as a home directory may be: the files of the
      rootfs, seen through that binding. */
  lemma RootfsInsideFails(h: Name, r: Name, a: Name)
    requires Short([h, r, a])
    ensures var home, root := Binding([h], [h], false), Binding([h, r], [], true);
            var guest, host := [home, root], [root, home];
            && ValidLists(guest, host)
            && Translated(guest, host, [h, r, a]) == [h, r, a]
            && Detranslated(guest, host, [h, r, a]) == Some([a])
  {
    var home, root := Binding([h], [h], false), Binding([h, r], [], true);
    var guest, host := [home, root], [root, home];
    assert PathsOf(guest, Guest) == [[h], []] && PathsOf(host, Host) == [[h, r], [h]];
    assert [h, r, a][0] == h && [h, r, a][1] == r && [h, r][0] == h && [h, r][1] == r;
    assert ValidLists(guest, host) by {
      assert multiset(guest) == multiset(host);
    }
    FirstMatchIs(PathsOf(guest, Guest), [h, r, a], 0);
    assert [h, r, a][2..] == [a];
  }

  /** The host sides of the bindings other than the root's are incomparable with each other, and
      with a rootfs that is not the whole host. */
  ghost predicate HostsApart(guest: seq<Binding>) {
    && (forall i, j :: 0 <= i < j < |guest| - 1 ==> !Comparable(guest[i].host, guest[j].host))
    && forall i {:trigger guest[i]} :: 0 <= i < |guest| - 1 ==>
         && guest[i].host != []
         && (guest[|guest| - 1].host != [] ==> !Comparable(guest[i].host, guest[|guest| - 1].host))
  }

  predicate TranslationFits(guest: seq<Binding>, host: seq<Binding>, p: Path)
    requires ValidLists(guest, host)
  {
    LookupDeepest(guest, host, p);
    var b := Lookup(guest, host, Guest, p).value;
    b.needSubstitution ==> SubstitutionFits(p, b.guest, b.host)
  }

  /** A path of the guest that only the root's binding covers, but that is also covered, as a path
      of the host, by some other binding. */
  ghost predicate Shadowed(guest: seq<Binding>, p: Path)
    requires guest != []
  {
    && guest[|guest| - 1].host == []
    && (forall i :: 0 <= i < |guest| - 1 ==> !Contains(guest[i].guest, p))
    && exists i :: 0 <= i < |guest| - 1 && Contains(guest[i].host, p)
                   && SubstitutionFits(p, guest[i].host, guest[i].guest)
  }

  lemma HostIndex(guest: seq<Binding>, host: seq<Binding>, k: nat) returns (j: nat)
    requires multiset(guest) == multiset(host) && k < |guest|
    ensures j < |host| && host[j] == guest[k]
  {
    assert guest[k] in multiset(host);
    j :| 0 <= j < |host| && host[j] == guest[k];
  }

  lemma GuestIndex(guest: seq<Binding>, host: seq<Binding>, k: nat) returns (j: nat)
    requires multiset(guest) == multiset(host) && k < |host|
    ensures j < |guest| && guest[j] == host[k]
  {
    assert host[k] in multiset(guest);
    j :| 0 <= j < |guest| && guest[j] == host[k];
  }

  /** On the host side, a path under the host side of a binding other than the root's is found to
      belong to that binding. */
  lemma HostLookup(guest: seq<Binding>, host: seq<Binding>, k: nat, t: Path)
    requires ValidLists(guest, host) && HostsApart(guest) && k < |guest| - 1 && Contains(guest[k].host, t)
    requires !InRootfs(guest, t)
    ensures Lookup(guest, host, Host, t) == Some(guest[k])
  {
    var ps := PathsOf(host, Host);
    var j := HostIndex(guest, host, k);
    FirstMatchDeepest(ps, t, j);
    var m := FirstMatch(ps, t);
    var i := GuestIndex(guest, host, m);
    assert Contains(guest[k].host, guest[i].host);
    OnlyItself(guest, i, k);
  }

  lemma OnlyItself(guest: seq<Binding>, i: nat, k: nat)
    requires HostsApart(guest) && k < |guest| - 1 && i < |guest| && Comparable(guest[k].host, guest[i].host)
    ensures i == k || (i == |guest| - 1 && guest[i].host == [] && !Contains(guest[k].host, guest[i].host))
  {
    assert guest[k].host != [];
  }

  lemma NotInRootfs(guest: seq<Binding>, k: nat, t: Path)
    requires guest != [] && HostsApart(guest) && k < |guest| - 1 && Contains(guest[k].host, t)
    ensures !InRootfs(guest, t)
  {
    if InRootfs(guest, t) {
      PrefixesComparable(guest[|guest| - 1].host, guest[k].host, t);
      OnlyItself(guest, |guest| - 1, k);
    }
  }

  lemma MoveBack(p: Path, g: Path, h: Path)
    requires ValidPath(p) && ValidPath(h) && Contains(g, p) && h != [] && Paths.Fits(Render(p))
    ensures var t := h + p[|g|..];
            && Contains(h, t) && g + t[|h|..] == p && SubstitutionFits(t, h, g)
  {
    var rest := p[|g|..];
    var t := h + rest;
    assert t[|h|..] == rest && p == g + rest;
    TailAppend(h, rest);
    TailAppend(g, rest);
    assert forall i :: 0 <= i < |g| ==> g[i] == p[i];
    LengthOfTail(p);
  }

  /** Through a binding other than the root's. */
  lemma {:induction false} BoundReturns(guest: seq<Binding>, host: seq<Binding>, p: Path)
    requires ValidLists(guest, host) && HostsApart(guest) && ValidPath(p) && Paths.Fits(Render(p))
    requires TranslationFits(guest, host, p)
    requires FirstMatch(PathsOf(guest, Guest), p) < |guest| - 1
    ensures Returns(guest, host, p)
  {
    var k := FirstMatch(PathsOf(guest, Guest), p);
    var b := guest[k];
    TranslatedIs(guest, host, p);
    assert Lookup(guest, host, Guest, p) == Some(b);
    MoveBack(p, b.guest, b.host);
    var t := b.host + p[|b.guest|..];
    NotInRootfs(guest, k, t);
    HostLookup(guest, host, k, t);
  }

  /** Through the root's binding, when the rootfs is a directory of the host. */
  lemma {:induction false} RootfsReturns(guest: seq<Binding>, host: seq<Binding>, p: Path)
    requires ValidLists(guest, host) && TranslationFits(guest, host, p) && guest[|guest| - 1].host != []
    requires FirstMatch(PathsOf(guest, Guest), p) == |guest| - 1
    ensures Returns(guest, host, p)
  {
    TranslatedIs(guest, host, p);
    assert guest[|guest| - 1].host + [] == guest[|guest| - 1].host;
  }

  /** Through the root's binding, when the rootfs is the whole host. */
  lemma {:induction false} WholeHostReturns(guest: seq<Binding>, host: seq<Binding>, p: Path)
    requires ValidLists(guest, host) && HostsApart(guest) && guest[|guest| - 1].host == []
    requires FirstMatch(PathsOf(guest, Guest), p) == |guest| - 1
    ensures Returns(guest, host, p) <==> !Shadowed(guest, p)
  {
    assert forall i :: 0 <= i < |guest| - 1 ==> PathsOf(guest, Guest)[i] == guest[i].guest;
    if i :| 0 <= i < |guest| - 1 && Contains(guest[i].host, p) {
      HostLookup(guest, host, i, p);
      ShadowedBy(guest, p, i);
      UnmovedReturns(guest, host, p, guest[i]);
    } else {
      RootLookup(guest, host, p);
      UnmovedReturns(guest, host, p, guest[|guest| - 1]);
    }
  }

  lemma {:induction false} UnmovedReturns(guest: seq<Binding>, host: seq<Binding>, p: Path, c: Binding)
    requires ValidLists(guest, host) && guest[|guest| - 1].host == []
    requires FirstMatch(PathsOf(guest, Guest), p) == |guest| - 1 && Lookup(guest, host, Host, p) == Some(c)
    ensures Returns(guest, host, p) <==> !(c.needSubstitution && SubstitutionFits(p, c.host, c.guest))
  {
    TranslatedIs(guest, host, p);
    assert Lookup(guest, host, Guest, p) == Some(guest[|guest| - 1]);
    assert Translated(guest, host, p) == p;
  }

  lemma ShadowedBy(guest: seq<Binding>, p: Path, i: nat)
    requires guest != [] && ValidBindings(guest) && HostsApart(guest) && guest[|guest| - 1].host == []
    requires i < |guest| - 1 && Contains(guest[i].host, p)
    requires forall j :: 0 <= j < |guest| - 1 ==> !Contains(guest[j].guest, p)
    ensures guest[i].needSubstitution
    ensures Shadowed(guest, p) <==> SubstitutionFits(p, guest[i].host, guest[i].guest)
  {
    forall j | 0 <= j < |guest| - 1 && Contains(guest[j].host, p) ensures j == i {
      PrefixesComparable(guest[i].host, guest[j].host, p);
      OnlyItself(guest, j, i);
    }
  }

  lemma RootLookup(guest: seq<Binding>, host: seq<Binding>, p: Path)
    requires ValidLists(guest, host) && guest[|guest| - 1].host == []
    requires forall i :: 0 <= i < |guest| - 1 ==> !Contains(guest[i].host, p)
    ensures Lookup(guest, host, Host, p) == Some(guest[|guest| - 1])
  {
    HostDeepest(guest, host, p, guest[|guest| - 1]);
    var c := Lookup(guest, host, Host, p).value;
    var i :| 0 <= i < |guest| && guest[i] == c;
    assert i == |guest| - 1;
  }

  /** When no host side is inside another one: a translated path comes back unless it is shadowed, which
      can only happen when the rootfs is the whole host. */
  lemma RoundTrip(guest: seq<Binding>, host: seq<Binding>, p: Path)
    requires ValidLists(guest, host) && HostsApart(guest) && ValidPath(p) && Paths.Fits(Render(p))
    requires TranslationFits(guest, host, p)
    ensures Detranslated(guest, host, Translated(guest, host, p)) == Some(p) <==> !Shadowed(guest, p)
    ensures guest[|guest| - 1].host != [] ==> !Shadowed(guest, p)
  {
    var k := FirstMatch(PathsOf(guest, Guest), p);
    RootMatches(guest, p);
    RoundTripIff(guest, host, p);
    if k < |guest| - 1 {
      BoundReturns(guest, host, p);
      assert Contains(guest[k].guest, p);
    } else if guest[|guest| - 1].host != [] {
      RootfsReturns(guest, host, p);
    } else {
      WholeHostReturns(guest, host, p);
    }
  }

  lemma {:induction false} RootMatches(guest: seq<Binding>, p: Path)
    requires guest != [] && guest[|guest| - 1].guest == []
    ensures FirstMatch(PathsOf(guest, Guest), p) < |guest|
  {
    assert Contains(PathsOf(guest, Guest)[|guest| - 1], p);
  }

  // ----- In place -----

  method FindPlaceIn(bs: seq<Binding>, b: Binding) returns (k: nat, previous: nat)
    requires ValidBindings(bs) && ValidBinding(b)
    ensures k == Same(PathsOf(bs, Guest), b.guest)
    ensures k == |bs| ==> previous == InsertionPoint(PathsOf(bs, Guest), b.guest)
  {
    ghost var ps, p := PathsOf(bs, Guest), b.guest;
    previous := 0;
    for i := 0 to |bs|
      invariant 0 <= previous <= i
      invariant forall k :: 0 <= k < i ==> ps[k] != p
      invariant forall k :: previous <= k < i ==> !Contains(p, ps[k])
      invariant previous > 0 ==> Contains(p, ps[previous - 1])
    {
      var comparison := CompareSides(b.guest, bs[i].guest);
      if comparison == PathsAreEqual {
        SameIs(ps, p, i);
        return i, 0;
      } else if comparison == Path1IsPrefix {
        previous := i + 1;
      }
    }
    NoneSame(ps, p);
    InsertionPointIs(ps, p, previous);
    k := |bs|;
  }

  class BindingLists {
    var guest: seq<Binding>
    var host: seq<Binding>

    ghost predicate Valid()
      reads this
    {
      ValidLists(guest, host)
    }

    /** Lists hold at least the binding of the root of the guest. */
    constructor (rootfs: Path)
      requires ValidPath(rootfs)
      ensures Valid() && guest == host == [Binding(rootfs, [], rootfs != [])]
    {
      var root := Binding(rootfs, [], rootfs != []);
      guest, host := [root], [root];
    }

    method GetRoot() returns (root: Path)
      requires Valid()
      ensures root == guest[|guest| - 1].host && ValidPath(root)
    {
      root := guest[|guest| - 1].host;
    }

    method BelongsToGuestfs(path: Path) returns (r: bool)
      requires Valid() && ValidPath(path)
      ensures r == Contains(guest[|guest| - 1].host, path)
    {
      var root := GetRoot();
      var comparison := CompareSides(root, path);
      r := comparison == PathsAreEqual || comparison == Path1IsPrefix;
    }

    method GetBinding(side: Side, p: Path) returns (r: Option<Binding>)
      requires Valid() && ValidPath(p)
      ensures r == Lookup(guest, host, side, p)
    {
      var bs := if side == Guest then guest else host;
      ghost var ps := PathsOf(bs, side);
      var hidden := false;
      for i := 0 to |bs|
        invariant !hidden ==> forall k :: 0 <= k < i ==> !Contains(ps[k], p)
        invariant hidden ==> side == Host && InRootfs(guest, p)
      {
        var matches := MatchesPath(bs[i], side, p);
        if !matches {
          continue;
        }
        if side == Host {
          var inside := IsInRootfs(p);
          if inside {
            hidden := true;
            continue;
          }
        }
        if !hidden {
          LookupIs(guest, host, side, p, bs, i);
        }
        return Some(bs[i]);
      }
      if !hidden {
        NoMatch(ps, p);
      }
      r := None;
    }

    method MatchesPath(b: Binding, side: Side, p: Path) returns (r: bool)
      requires ValidBinding(b) && ValidPath(p)
      ensures r == Contains(PathOf(b, side), p)
    {
      var comparison := CompareSides(PathOf(b, side), p);
      r := comparison == PathsAreEqual || comparison == Path1IsPrefix;
    }

    /** Whether a host path is in a rootfs that is not the whole host. */
    method IsInRootfs(p: Path) returns (r: bool)
      requires Valid() && ValidPath(p)
      ensures r == InRootfs(guest, p)
    {
      var root := GetRoot();
      var comparison := CompareSides(root, []);
      if comparison == PathsAreEqual {
        return false;
      }
      r := BelongsToGuestfs(p);
    }

    /** substitute_binding: negative when there is no binding, 0 when it is symmetric, 1 when a
        substitution was performed (or given up for lack of room). */
    method SubstituteBinding(side: Side, p: Path) returns (status: int, path: string)
      requires Valid() && ValidPath(p)
      ensures match Lookup(guest, host, side, p)
              case None => status < 0 && path == Render(p)
              case Some(b) =>
                && status == (if b.needSubstitution then 1 else 0)
                && path == Render(Substituted(b, side, p))
    {
      path := Render(p);
      var r := GetBinding(side, p);
      if r.None? {
        return -1, path;
      }
      LookupValid(guest, host, side, p);
      if !r.value.needSubstitution {
        return 0, path;
      }
      var ref := PathOf(r.value, side);
      var reverseRef := PathOf(r.value, if side == Guest then Host else Guest);
      SubstitutePrefixMeaning(p, ref, reverseRef);
      var ok;
      ok, path := SubstitutePathPrefix(path, |Render(ref)|, Render(reverseRef));
      status := 1;
    }

    method TranslatePath(p: Path) returns (path: string)
      requires Valid() && ValidPath(p)
      ensures path == Render(Translated(guest, host, p))
    {
      LookupDeepest(guest, host, p);
      var status;
      status, path := SubstituteBinding(Guest, p);
    }

    /** detranslate_path without a referrer. */
    method DetranslatePath(p: Path) returns (ok: bool, path: string)
      requires Valid() && ValidPath(p)
      ensures match Detranslated(guest, host, p)
              case None => !ok
              case Some(q) => ok && path == Render(q)
    {
      var status;
      status, path := SubstituteBinding(Host, p);
      if status >= 0 {
        return true, path;
      }
      ok, path := RemoveRoot(p);
    }

    /** The path as the guest sees it in its rootfs, if it is there. */
    method RemoveRoot(p: Path) returns (ok: bool, path: string)
      requires Valid() && ValidPath(p)
      ensures ok == Contains(guest[|guest| - 1].host, p)
      ensures ok ==> path == Render(p[|guest[|guest| - 1].host|..])
    {
      path := Render(p);
      var root := GetRoot();
      var comparison := CompareSides(root, p);
      match comparison
      case Path1IsPrefix =>
        var prefixLength := |Render(root)|;
        if prefixLength == 1 {
          prefixLength := 0;
        }
        RemovePrefix(p, root);
        return true, path[prefixLength..];
      case PathsAreEqual =>
        return true, "/";
      case _ =>
        return false, path;
    }

    /** Where the new binding goes: over the one bound to the same path, or after the last one
        it contains. */
    method FindPlace(b: Binding) returns (k: nat, previous: nat)
      requires Valid() && ValidBinding(b)
      ensures k == Same(PathsOf(guest, Guest), b.guest)
      ensures k == |guest| ==> previous == InsertionPoint(PathsOf(guest, Guest), b.guest)
    {
      k, previous := FindPlaceIn(guest, b);
    }

    method InsortGuest(b: Binding)
      requires Valid() && ValidBinding(b)
      modifies this
      ensures guest == InsertGuest(old(guest), old(host), b).0 && host == InsertGuest(old(guest), old(host), b).1
    {
      var k, previous := FindPlace(b);
      if k < |guest| {
        assert guest[k] in multiset(guest);
        host := RemoveAt(host, IndexOf(host, guest[k]));
        guest := guest[k := b];
      } else {
        guest := InsertAt(guest, previous, b);
      }
    }

    method InsortHost(b: Binding)
      requires ValidBindings(host) && ValidBinding(b)
      modifies this`host
      ensures host == InsertHost(old(host), b)
    {
      ghost var ps, p := PathsOf(host, Host), PathOf(b, Host);
      var previous := 0;
      for i := 0 to |host|
        invariant host == old(host)
        invariant 0 <= previous <= i
        invariant forall k :: previous <= k < i ==> !Contains(p, ps[k])
        invariant previous > 0 ==> Contains(p, ps[previous - 1])
      {
        var comparison := CompareSides(b.host, host[i].host);
        if comparison == PathsAreEqual || comparison == Path1IsPrefix {
          previous := i + 1;
        }
      }
      InsertionPointIs(ps, p, previous);
      host := InsertAt(host, previous, b);
    }

    method InsortBinding(hostPath: Path, guestPath: Path)
      requires Valid() && ValidPath(hostPath) && ValidPath(guestPath)
      modifies this
      ensures Valid()
      ensures var b := Binding(hostPath, guestPath, hostPath != guestPath);
              var (guest', host') := InsertGuest(old(guest), old(host), b);
              guest == guest' && host == InsertHost(host', b)
    {
      var comparison := CompareSides(hostPath, guestPath);
      var b := Binding(hostPath, guestPath, comparison != PathsAreEqual);
      ghost var (guest', host') := InsertGuest(guest, host, b);
      ghost var host'' := InsertHost(host', b);
      InsertKeepsValid(guest, host, b);
      InsortGuest(b);
      assert guest == guest' && host == host';
      InsortHost(b);
      assert guest == guest' && host == host'';
    }
  }

  lemma {:induction false} SameIs(ps: seq<Path>, p: Path, k: nat)
    requires k < |ps| && ps[k] == p && forall i :: 0 <= i < k ==> ps[i] != p
    ensures Same(ps, p) == k
  {
  }

  lemma {:induction false} NoneSame(ps: seq<Path>, p: Path)
    requires forall i :: 0 <= i < |ps| ==> ps[i] != p
    ensures Same(ps, p) == |ps|
  {
  }

  lemma {:induction false} InsertionPointIs(ps: seq<Path>, p: Path, k: nat)
    requires k <= |ps| && (forall i :: k <= i < |ps| ==> !Contains(p, ps[i]))
    requires k > 0 ==> Contains(p, ps[k - 1])
    ensures InsertionPoint(ps, p) == k
  {
    var j := InsertionPoint(ps, p);
    assert j > 0 ==> Contains(p, ps[j - 1]);
  }
}
