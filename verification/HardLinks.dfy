/** Emulated hard links against real ones: when each operation of link2symlink.c keeps the tree of
    the host consistent with the file system its tracees expect. */
module HardLinks {
  import opened Common
  import opened Link2Symlink

  /** The tree is consistent, and shows what `h` would. */
  ghost predicate Keeps(t: Tree, h: Hard) {
    Consistent(t) && Represents(t, h)
  }

  // ----- The number of names -----

  /** st_nlink, as stat(2) tells it once it is overridden. */
  function Nlink(t: Tree, u: string): nat
    requires u in t
  {
    var i := IntermediateOf(t, u);
    if i.Some? && i.value in t && t[i.value].Link? then Suffix(t[i.value].target) else 1
  }

  ghost function Siblings(h: Hard, u: string): set<string>
    requires u in h.names
  {
    set v | v in h.names && h.names[v] == h.names[u]
  }

  lemma SiblingsPoint(t: Tree, h: Hard, u: string)
    requires Keeps(t, h) && u in h.names && u in t
    ensures Siblings(h, u) == if t[u].Link? then Pointing(t, t[u].target) else {u}
  {
    NamesKnown(t, h);
    forall v | v in h.names ensures v in Siblings(h, u) <==> v in if t[u].Link? then Pointing(t, t[u].target) else {u} {
      TogetherAt(t, h, u, v);
      PlacedAt(t, u);
      PlacedAt(t, v);
    }
  }

  /** The count is that of the names of the file. */
  lemma NlinkIsNames(t: Tree, h: Hard, u: string)
    requires Keeps(t, h) && u in h.names && u in t
    ensures Nlink(t, u) == |Siblings(h, u)|
  {
    SiblingsPoint(t, h, u);
    ShownAt(t, h, u);
    if t[u].Link? {
      LinkedLookup(t, u);
      var i := t[u].target;
      FinalParts(i, |Pointing(t, i)|);
    }
  }

  // ----- Broken trees -----

  /** A name whose intermediate link is gone. */
  ghost predicate Dangling(t: Tree, u: string) {
    u in t && !IsL2s(u) && t[u].Link? && (t[u].target !in t || t[t[u].target].Regular?)
  }

  lemma DanglingBreaks(t: Tree, u: string)
    requires Dangling(t, u)
    ensures !Consistent(t)
  {
    if Consistent(t) {
      PlacedAt(t, u);
    }
  }

  lemma CountsDiffer(t: Tree, j: string, n: int, m: int)
    requires Tells(t, j, n) && Tells(t, j, m)
    ensures n == m
  {
    FinalsDiffer(j, n, j, m);
  }

  /** A count that is wrong for a link is not right. */
  lemma OffBreaks(t: Tree, j: string, off: int)
    requires Counted(t, j, off) && IsL2s(j) && off != 0
    ensures !Consistent(t)
  {
    if Consistent(t) {
      CountedAt(t, "", 0, j);
      CountsDiffer(t, j, |Pointing(t, j)|, |Pointing(t, j)| + off);
    }
  }

  /** A final name that is taken is the intermediate link of another file, which has names. */
  lemma TakenByLink(t: Tree, j: string, m: nat) returns (u: string)
    requires Consistent(t) && IsL2s(j) && m <= MAX_COUNT
    requires Final(j, m) in t && (j in t ==> t[j] != Link(Final(j, m)))
    ensures var g := Final(j, m); t[g].Link? && IsL2s(g) && u in t && !IsL2s(u) && t[u] == Link(g)
  {
    var g := Final(j, m);
    FinalParts(j, m);
    PlacedAt(t, g);
    CountedAt(t, "", 0, g);
    var names := Pointing(t, g);
    assert names != {};
    u :| u in names;
  }

  lemma OverwrittenDangles(t: Tree, j: string, f: string, f': string, u: string)
    requires PointsTo(t, j, f) && f' in t && f' != f && f' != j && IsL2s(j) && IsL2s(f) && IsL2s(f')
    requires u in t && !IsL2s(u) && t[u] == Link(f')
    ensures Dangling(Replaced(t, j, f, f'), u)
  {
    ReplacedNames(t, j, f, f', u);
  }

  // ----- decrement_link_count -----

  /** What the code reads of the emulated file of a name: its intermediate link, its final name and
      its count. */
  ghost predicate Reads(t: Tree, u: string, j: string, f: string, n: nat) {
    && u in t && !IsL2s(u) && t[u] == Link(j) && IsL2s(j) && PointsTo(t, j, f)
    && IsL2s(f) && f == Final(j, n) && Suffix(f) == n && 1 <= n <= MAX_COUNT
  }

  lemma ReadsAt(t: Tree, u: string, off: int) returns (j: string, f: string, n: nat)
    requires u in t && !IsL2s(u) && t[u].Link? && CountedBut(t, t[u].target, off)
    ensures Reads(t, u, j, f, n) && n == |Pointing(t, j)| + off && CountedBut(t, j, off)
  {
    j := t[u].target;
    PlacedAt(t, u);
    CountedAt(t, j, off, j);
    n := |Pointing(t, j)| + off;
    f := Final(j, n);
    FinalParts(j, n);
  }

  /** Another final name of the same file. */
  ghost predicate Recount(j: string, f: string, m: nat, f': string) {
    f' == Final(j, m) && f' == WithCount(f, m) && IsL2s(f') && f' != f && f' != j && 1 <= m <= MAX_COUNT
  }

  lemma RecountAt(t: Tree, u: string, j: string, f: string, n: nat, m: nat) returns (f': string)
    requires Reads(t, u, j, f, n) && 1 <= m <= MAX_COUNT && m != n
    ensures Recount(j, f, m, f')
  {
    f' := Final(j, m);
    FinalParts(j, n);
    FinalParts(j, m);
  }

  lemma IntermediateIs(t: Tree, u: string, j: string)
    requires u in t && t[u] == Link(j) && IsL2s(j)
    ensures IntermediateOf(t, u) == Some(j)
  {
  }

  lemma DecrementedLast(t: Tree, u: string, j: string, f: string)
    requires Reads(t, u, j, f, 1)
    ensures Decremented(t, u) == Effect(0, WithoutPair(t, j, f))
  {
    IntermediateIs(t, u, j);
  }

  lemma RelinkedIs(t: Tree, i: string, f: string, f': string)
    requires i in t && f in t && i != f
    ensures Relinked(t, i, f, f') == Effect(0, Replaced(t, i, f, f'))
  {
  }

  lemma DecrementedAs(t: Tree, u: string, j: string, f: string, n: nat, f': string)
    requires IntermediateOf(t, u) == Some(j) && j in t && t[j] == Link(f) && f in t && j != f
    requires Suffix(f) == n && n >= 2 && f' == WithCount(f, n - 1)
    ensures Decremented(t, u) == Effect(0, Replaced(t, j, f, f'))
  {
    RelinkedIs(t, j, f, f');
  }

  lemma DecrementedMany(t: Tree, u: string, j: string, f: string, n: nat, f': string)
    requires Reads(t, u, j, f, n) && n >= 2 && Recount(j, f, n - 1, f')
    ensures Decremented(t, u) == Effect(0, Replaced(t, j, f, f'))
  {
    IntermediateIs(t, u, j);
    DecrementedAs(t, u, j, f, n, f');
  }

  /** The decrement as a change of count. */
  lemma DecrementRecounts(t: Tree, u: string, j: string, off: int, f: string, n: nat, f': string)
    requires CountedBut(t, j, off) && Reads(t, u, j, f, n) && n == |Pointing(t, j)| + off && n >= 2
    requires Recount(j, f, n - 1, f') && f' !in t
    ensures Recounts(t, j, off, n - 1, f, f') && Decremented(t, u) == Effect(0, Replaced(t, j, f, f'))
  {
    DecrementedMany(t, u, j, f, n, f');
    RecountsAt(t, j, off, n - 1);
  }

  /** One name less to count; the name and its intermediate link are still there. */
  lemma DecrementKeeps(t: Tree, u: string, j: string, off: int, f: string, n: nat, f': string)
    requires CountedBut(t, j, off) && n >= 2 && Recounts(t, j, off, n - 1, f, f') && n == |Pointing(t, j)| + off
    requires u in t && !IsL2s(u) && t[u] == Link(j)
    ensures var d := Replaced(t, j, f, f');
            CountedBut(d, j, off - 1) && u in d && d[u] == Link(j) && j in d && d[j].Link?
  {
    RecountKeeps(t, j, off, n - 1, f, f', off - 1);
    ReplacedNames(t, j, f, f', u);
  }

  /** Another name is left alone. */
  lemma DecrementElsewhere(t: Tree, u: string, j: string, f: string, n: nat, x: string)
    requires Reads(t, u, j, f, n) && !IsL2s(x)
    ensures var t' := Decremented(t, u).tree; (x in t' <==> x in t) && (x in t ==> t'[x] == t[x])
  {
    if n == 1 {
      DecrementedLast(t, u, j, f);
      OthersStay(t, j, f, x);
    } else {
      var f' := RecountAt(t, u, j, f, n, n - 1);
      DecrementedMany(t, u, j, f, n, f');
      ReplacedNames(t, j, f, f', x);
    }
  }

  // ----- unlink -----

  /** What unlink needs of the tree and of the host: a name of an emulated file really goes away, and
      the new final name is free. */
  predicate UnlinkSafe(t: Tree, u: string, granted: bool) {
    var j := IntermediateOf(t, u);
    j.Some? && j.value in t && t[j.value].Link? ==>
      var f := t[j.value].target;
      granted && (Suffix(f) <= 1 || WithCount(f, Suffix(f) - 1) !in t)
  }

  lemma SafeLast(t: Tree, u: string, j: string, f: string, granted: bool)
    requires Reads(t, u, j, f, 1)
    ensures UnlinkSafe(t, u, granted) <==> granted
  {
    assert IntermediateOf(t, u) == Some(j);
  }

  lemma SafeAs(t: Tree, u: string, j: string, f: string, n: nat, f': string, granted: bool)
    requires IntermediateOf(t, u) == Some(j) && j in t && t[j] == Link(f)
    requires Suffix(f) == n && n >= 2 && f' == WithCount(f, n - 1)
    ensures UnlinkSafe(t, u, granted) <==> granted && f' !in t
  {
  }

  lemma SafeMany(t: Tree, u: string, j: string, f: string, n: nat, f': string, granted: bool)
    requires Reads(t, u, j, f, n) && n >= 2 && Recount(j, f, n - 1, f')
    ensures UnlinkSafe(t, u, granted) <==> granted && f' !in t
  {
    IntermediateIs(t, u, j);
    SafeAs(t, u, j, f, n, f', granted);
  }

  lemma UnlinkKeeps(t: Tree, h: Hard, u: string, granted: bool)
    requires Keeps(t, h) && !IsL2s(u) && UnlinkSafe(t, u, granted)
    ensures var r := Unlinked(t, u, granted); Keeps(r.tree, if r.status == 0 then HardUnlinked(h, u) else h)
  {
    if u in t && t[u].Link? {
      ZeroOff(t, t[u].target);
      var j, f, n := ReadsAt(t, u, 0);
      if n == 1 {
        SafeLast(t, u, j, f, granted);
        UnlinkLast(t, h, u, j, f);
      } else {
        var f' := RecountAt(t, u, j, f, n, n - 1);
        SafeMany(t, u, j, f, n, f', granted);
        UnlinkOne(t, h, u, j, f, n, f');
      }
    } else if u in t && granted {
      DropRegular(t, u);
      ZeroOff(t, "");
      DropRepresents(t, h, "", 0, u);
    }
  }

  lemma UnlinkOne(t: Tree, h: Hard, u: string, j: string, f: string, n: nat, f': string)
    requires Represents(t, h) && CountedBut(t, j, 0) && Reads(t, u, j, f, n) && n == |Pointing(t, j)| && n >= 2
    requires Recount(j, f, n - 1, f') && f' !in t
    ensures var r := Unlinked(t, u, true); r.status == 0 && Keeps(r.tree, HardUnlinked(h, u))
  {
    DecrementRecounts(t, u, j, 0, f, n, f');
    DecrementKeeps(t, u, j, 0, f, n, f');
    RecountRepresents(t, j, 0, n - 1, f, f', h);
    var d := Replaced(t, j, f, f');
    RemoveName(d, h, u, j);
    assert Unlinked(t, u, true) == Effect(0, d - {u});
  }

  lemma RemoveName(d: Tree, h: Hard, u: string, j: string)
    requires CountedBut(d, j, -1) && Represents(d, h) && u in d && !IsL2s(u) && d[u] == Link(j)
    ensures Keeps(d - {u}, HardUnlinked(h, u))
  {
    DropName(d, j, -1, u);
    DropRepresents(d, h, j, -1, u);
    ZeroOff(d - {u}, j);
  }

  lemma OnlyName(t: Tree, u: string, j: string)
    requires u in Pointing(t, j) && |Pointing(t, j)| == 1
    ensures Pointing(t, j) == {u}
  {
    var names := Pointing(t, j);
    assert |names - {u}| == 0;
    assert names == {u};
  }

  lemma UnlinkLast(t: Tree, h: Hard, u: string, j: string, f: string)
    requires Keeps(t, h) && Reads(t, u, j, f, 1) && |Pointing(t, j)| == 1
    ensures var r := Unlinked(t, u, true);
            && r.status == 0 && Keeps(r.tree, HardUnlinked(h, u))
            && j !in r.tree && f !in r.tree
  {
    DecrementedLast(t, u, j, f);
    assert Unlinked(t, u, true) == Effect(0, WithoutPair(t, j, f) - {u});
    OnlyName(t, u, j);
    LastName(t, j, u);
    LastNameRepresents(t, h, j, u);
  }

  /** Where it is not safe, a name is left dangling or a count is wrong. */
  lemma UnlinkBreaks(t: Tree, h: Hard, u: string, granted: bool)
    requires Keeps(t, h) && !IsL2s(u) && !UnlinkSafe(t, u, granted)
    ensures !Consistent(Unlinked(t, u, granted).tree)
  {
    UnsafeIsLink(t, u, granted);
    ZeroOff(t, t[u].target);
    var j, f, n := ReadsAt(t, u, 0);
    UnlinkUnsafe(t, u, j, f, n, granted);
  }

  lemma UnlinkUnsafe(t: Tree, u: string, j: string, f: string, n: nat, granted: bool)
    requires Consistent(t) && Reads(t, u, j, f, n) && n == |Pointing(t, j)| && !UnlinkSafe(t, u, granted)
    ensures !Consistent(Unlinked(t, u, granted).tree)
  {
    if n == 1 {
      UnlinkLastBreaks(t, u, j, f, granted);
    } else {
      var f' := RecountAt(t, u, j, f, n, n - 1);
      SafeMany(t, u, j, f, n, f', granted);
      UnlinkManyBreaks(t, u, j, f, n, f', granted);
    }
  }

  lemma UnlinkLastBreaks(t: Tree, u: string, j: string, f: string, granted: bool)
    requires Reads(t, u, j, f, 1) && !UnlinkSafe(t, u, granted)
    ensures !Consistent(Unlinked(t, u, granted).tree)
  {
    SafeLast(t, u, j, f, granted);
    DecrementLastAlone(t, u, j, f);
    Refused(t, u);
  }

  lemma UnsafeIsLink(t: Tree, u: string, granted: bool)
    requires !UnlinkSafe(t, u, granted)
    ensures u in t && t[u].Link?
  {
  }

  lemma Refused(t: Tree, u: string)
    requires Decremented(t, u).status == 0
    ensures Unlinked(t, u, false).tree == Decremented(t, u).tree
  {
  }

  lemma UnlinkManyBreaks(t: Tree, u: string, j: string, f: string, n: nat, f': string, granted: bool)
    requires Consistent(t) && Reads(t, u, j, f, n) && n >= 2 && n == |Pointing(t, j)|
    requires Recount(j, f, n - 1, f') && (f' in t || !granted)
    ensures !Consistent(Unlinked(t, u, granted).tree)
  {
    if f' in t {
      UnlinkTaken(t, u, j, f, n, f', granted);
    } else {
      UnlinkRefused(t, u, j, f, n, f');
    }
  }

  lemma UnlinkRefused(t: Tree, u: string, j: string, f: string, n: nat, f': string)
    requires Consistent(t) && Reads(t, u, j, f, n) && n == |Pointing(t, j)| && n >= 2
    requires Recount(j, f, n - 1, f') && f' !in t
    ensures !Consistent(Unlinked(t, u, false).tree)
  {
    DecrementAlone(t, u, j, f, n, f');
    Refused(t, u);
  }

  lemma UnlinkTaken(t: Tree, u: string, j: string, f: string, n: nat, f': string, granted: bool)
    requires Consistent(t) && Reads(t, u, j, f, n) && n >= 2 && Recount(j, f, n - 1, f') && f' in t
    ensures !Consistent(Unlinked(t, u, granted).tree)
  {
    var v := DecrementDangles(t, u, j, f, n, f');
    DanglingBreaks(Unlinked(t, u, granted).tree, v);
  }

  /** The new final name was an intermediate link, whose names now point to a regular file. */
  lemma DecrementDangles(t: Tree, u: string, j: string, f: string, n: nat, f': string) returns (v: string)
    requires Consistent(t) && Reads(t, u, j, f, n) && n >= 2 && Recount(j, f, n - 1, f') && f' in t
    ensures Decremented(t, u).status == 0 && Dangling(Decremented(t, u).tree, v)
    ensures v in t && t[v] == Link(f') && Decremented(t, u).tree[v] == t[v]
  {
    DecrementedMany(t, u, j, f, n, f');
    v := TakenByLink(t, j, n - 1);
    OverwrittenDangles(t, j, f, f', v);
    ReplacedNames(t, j, f, f', v);
  }

  /** A count that goes down while its name stays. */
  lemma DecrementAlone(t: Tree, u: string, j: string, f: string, n: nat, f': string)
    requires Consistent(t) && Reads(t, u, j, f, n) && n == |Pointing(t, j)| && n >= 2
    requires Recount(j, f, n - 1, f') && f' !in t
    ensures Decremented(t, u).status == 0 && !Consistent(Decremented(t, u).tree)
  {
    ZeroOff(t, j);
    DecrementRecounts(t, u, j, 0, f, n, f');
    DecrementKeeps(t, u, j, 0, f, n, f');
    OneLessBreaks(Replaced(t, j, f, f'), j);
  }

  lemma OneLessBreaks(d: Tree, j: string)
    requires CountedBut(d, j, -1) && IsL2s(j) && j in d && d[j].Link?
    ensures !Consistent(d)
  {
    CountedAt(d, j, -1, j);
    OffBreaks(d, j, -1);
  }

  lemma DecrementLastAlone(t: Tree, u: string, j: string, f: string)
    requires Reads(t, u, j, f, 1)
    ensures Decremented(t, u).status == 0 && !Consistent(Decremented(t, u).tree)
  {
    DecrementedLast(t, u, j, f);
    OthersStay(t, j, f, u);
    DanglingBreaks(WithoutPair(t, j, f), u);
  }

  lemma OthersStay(t: Tree, j: string, f: string, x: string)
    requires IsL2s(j) && IsL2s(f) && !IsL2s(x)
    ensures var t' := WithoutPair(t, j, f); j !in t' && (x in t' <==> x in t) && (x in t ==> t'[x] == t[x])
  {
    assert x != j && x != f;
  }

  /** unlink keeps the tree right if and only if the host lets the name go and the new final name is
      free. */
  lemma UnlinkKeepsIff(t: Tree, h: Hard, u: string, granted: bool)
    requires Keeps(t, h) && !IsL2s(u)
    ensures var r := Unlinked(t, u, granted);
            Keeps(r.tree, if r.status == 0 then HardUnlinked(h, u) else h) <==> UnlinkSafe(t, u, granted)
  {
    if UnlinkSafe(t, u, granted) {
      UnlinkKeeps(t, h, u, granted);
    } else {
      UnlinkBreaks(t, h, u, granted);
    }
  }

  // ----- rename -----

  /** A name of an emulated file may only be replaced by another file, if the rename really happens. */
  predicate RenameSafe(t: Tree, source: string, dest: string, granted: bool) {
    UnlinkSafe(t, dest, granted && source in t && (dest in t ==> t[source] != t[dest]))
  }

  function AfterRename(h: Hard, source: string, dest: string, status: int): Hard {
    if status == 0 then HardRenamed(h, source, dest) else h
  }

  lemma NotEmulated(t: Tree, u: string)
    requires Consistent(t) && !IsL2s(u) && (u !in t || t[u].Regular?)
    ensures Decremented(t, u) == Effect(0, t) && UnlinkSafe(t, u, false)
  {
    assert IntermediateOf(t, u) == None;
  }

  lemma EmulatedUnsafe(t: Tree, u: string)
    requires Consistent(t) && !IsL2s(u) && u in t && t[u].Link?
    ensures !UnlinkSafe(t, u, false) && Decremented(t, u).status == 0
  {
    ZeroOff(t, t[u].target);
    var j, f, n := ReadsAt(t, u, 0);
    if n == 1 {
      SafeLast(t, u, j, f, false);
      DecrementedLast(t, u, j, f);
    } else {
      var f' := RecountAt(t, u, j, f, n, n - 1);
      SafeMany(t, u, j, f, n, f', false);
      DecrementedMany(t, u, j, f, n, f');
    }
  }

  lemma EmulatedElsewhere(t: Tree, u: string, x: string)
    requires Consistent(t) && !IsL2s(u) && u in t && t[u].Link? && !IsL2s(x)
    ensures var t' := Decremented(t, u).tree; (x in t' <==> x in t) && (x in t ==> t'[x] == t[x])
  {
    ZeroOff(t, t[u].target);
    var j, f, n := ReadsAt(t, u, 0);
    DecrementElsewhere(t, u, j, f, n, x);
  }

  lemma RenameOverNothing(t: Tree, h: Hard, source: string, dest: string)
    requires Keeps(t, h) && !IsL2s(source) && !IsL2s(dest) && source in t && (dest !in t || t[dest].Regular?)
    ensures Keeps((t - {source})[dest := t[source]], HardRenamed(h, source, dest))
  {
    NamesKnown(t, h);
    if source == dest {
      assert (t - {source})[dest := t[source]] == t;
    } else if dest !in t {
      MoveName(t, source, dest);
      MoveRepresents(t, h, source, dest);
    } else {
      DropRegular(t, dest);
      ZeroOff(t, "");
      DropRepresents(t, h, "", 0, dest);
      TogetherAt(t, h, source, dest);
      PlacedAt(t, source);
      MoveOver(t, t - {dest}, h, source, dest);
    }
  }

  /** Once the old name is gone, the new one takes its place. */
  lemma MoveOver(t: Tree, t': Tree, h: Hard, source: string, dest: string)
    requires Keeps(t', HardUnlinked(h, dest)) && source in t' && dest !in t' && !IsL2s(source) && !IsL2s(dest)
    requires source in t && t[source] == t'[source] && t' == t - {dest}
    requires source in h.names && (dest in h.names ==> h.names[source] != h.names[dest])
    ensures Keeps((t - {source})[dest := t[source]], HardRenamed(h, source, dest))
  {
    MoveName(t', source, dest);
    MoveRepresents(t', HardUnlinked(h, dest), source, dest);
    SameMove(t, source, dest);
    SameHardMove(h, source, dest);
  }

  lemma SameMove(t: Tree, source: string, dest: string)
    requires source in t && source != dest
    ensures MovedName(t - {dest}, source, dest) == (t - {source})[dest := t[source]]
  {
  }

  lemma SameHardMove(h: Hard, source: string, dest: string)
    requires source in h.names && source != dest && (dest in h.names ==> h.names[source] != h.names[dest])
    ensures HardRenamed(HardUnlinked(h, dest), source, dest) == HardRenamed(h, source, dest)
  {
    assert HardRenamed(HardUnlinked(h, dest), source, dest).names == HardRenamed(h, source, dest).names;
  }

  lemma RenameOverEmulated(t: Tree, h: Hard, source: string, dest: string)
    requires Keeps(t, h) && !IsL2s(source) && !IsL2s(dest) && source in t && dest in t && t[dest].Link?
    requires t[source] != t[dest] && UnlinkSafe(t, dest, true)
    ensures var d := Decremented(t, dest).tree;
            source in d && Keeps((d - {source})[dest := d[source]], HardRenamed(h, source, dest))
  {
    var d := Decremented(t, dest).tree;
    EmulatedUnsafe(t, dest);
    EmulatedElsewhere(t, dest, source);
    EmulatedElsewhere(t, dest, dest);
    UnlinkKeeps(t, h, dest, true);
    assert Unlinked(t, dest, true) == Effect(0, d - {dest});
    NamesKnown(t, h);
    TogetherAt(t, h, source, dest);
    PlacedAt(t, dest);
    MoveOver(d, d - {dest}, h, source, dest);
  }

  lemma RenameKeeps(t: Tree, h: Hard, source: string, dest: string, granted: bool)
    requires Keeps(t, h) && !IsL2s(source) && !IsL2s(dest) && RenameSafe(t, source, dest, granted)
    ensures var r := Renamed(t, source, dest, granted); Keeps(r.tree, AfterRename(h, source, dest, r.status))
  {
    if dest in t && t[dest].Link? {
      EmulatedUnsafe(t, dest);
      RenameOverEmulated(t, h, source, dest);
    } else {
      NotEmulated(t, dest);
      if granted && source in t {
        RenameOverNothing(t, h, source, dest);
      }
    }
  }

  lemma RenameBreaks(t: Tree, h: Hard, source: string, dest: string, granted: bool)
    requires Keeps(t, h) && !IsL2s(source) && !IsL2s(dest) && !RenameSafe(t, source, dest, granted)
    ensures var r := Renamed(t, source, dest, granted); !Keeps(r.tree, AfterRename(h, source, dest, r.status))
  {
    if !(dest in t && t[dest].Link?) {
      NotEmulated(t, dest);
    } else if !granted || source !in t {
      RenameRefused(t, h, source, dest, granted);
    } else if source == dest {
      RenameToItself(t, h, source);
    } else if t[source] == t[dest] {
      RenameSameFile(t, h, source, dest);
    } else {
      RenameTaken(t, h, source, dest);
    }
  }

  lemma RenameRefused(t: Tree, h: Hard, source: string, dest: string, granted: bool)
    requires Keeps(t, h) && !IsL2s(source) && !IsL2s(dest) && dest in t && t[dest].Link? && !(granted && source in t)
    ensures !Consistent(Renamed(t, source, dest, granted).tree)
  {
    EmulatedUnsafe(t, dest);
    EmulatedElsewhere(t, dest, source);
    UnlinkBreaks(t, h, dest, false);
    Refused(t, dest);
  }

  lemma RenameToItself(t: Tree, h: Hard, u: string)
    requires Keeps(t, h) && !IsL2s(u) && u in t && t[u].Link?
    ensures !Consistent(Renamed(t, u, u, true).tree)
  {
    EmulatedUnsafe(t, u);
    EmulatedElsewhere(t, u, u);
    UnlinkBreaks(t, h, u, false);
    Refused(t, u);
    PutBack(Decremented(t, u).tree, u);
  }

  lemma PutBack(t: Tree, u: string)
    requires u in t
    ensures (t - {u})[u := t[u]] == t
  {
  }

  /** rename(2) does nothing to two names of one file; here the first one goes. */
  lemma RenameSameFile(t: Tree, h: Hard, source: string, dest: string)
    requires Keeps(t, h) && !IsL2s(source) && !IsL2s(dest) && source != dest
    requires source in t && dest in t && t[dest].Link? && t[source] == t[dest]
    ensures var r := Renamed(t, source, dest, true);
            source !in r.tree && HardRenamed(h, source, dest) == h && !Represents(r.tree, h)
  {
    EmulatedUnsafe(t, dest);
    EmulatedElsewhere(t, dest, source);
    NamesKnown(t, h);
    TogetherAt(t, h, source, dest);
    var r := Renamed(t, source, dest, true);
    if Represents(r.tree, h) {
      ShownAt(r.tree, h, source);
    }
  }

  lemma RenameTaken(t: Tree, h: Hard, source: string, dest: string)
    requires Keeps(t, h) && !IsL2s(source) && !IsL2s(dest) && source != dest
    requires source in t && dest in t && t[dest].Link? && t[source] != t[dest] && !UnlinkSafe(t, dest, true)
    ensures !Consistent(Renamed(t, source, dest, true).tree)
  {
    var v := UnsafeDangles(t, dest);
    EmulatedElsewhere(t, dest, source);
    DanglingBreaks(Renamed(t, source, dest, true).tree, if v == source then dest else v);
  }

  lemma UnsafeDangles(t: Tree, u: string) returns (v: string)
    requires Consistent(t) && !IsL2s(u) && u in t && t[u].Link? && !UnlinkSafe(t, u, true)
    ensures Decremented(t, u).status == 0 && Dangling(Decremented(t, u).tree, v)
    ensures v in t && t[v].Link? && t[v] != t[u] && IsL2s(t[v].target) && Decremented(t, u).tree[v] == t[v]
  {
    ZeroOff(t, t[u].target);
    var j, f, n := ReadsAt(t, u, 0);
    if n == 1 {
      SafeLast(t, u, j, f, true);
    } else {
      var f' := RecountAt(t, u, j, f, n, n - 1);
      SafeMany(t, u, j, f, n, f', true);
      v := DecrementDangles(t, u, j, f, n, f');
    }
  }

  /** rename keeps the tree right if and only if, when the new name was one of an emulated file, the
      rename happens, the old name is not one of the same file, and the new final name is free. */
  lemma RenameKeepsIff(t: Tree, h: Hard, source: string, dest: string, granted: bool)
    requires Keeps(t, h) && !IsL2s(source) && !IsL2s(dest)
    ensures var r := Renamed(t, source, dest, granted);
            Keeps(r.tree, AfterRename(h, source, dest, r.status)) <==> RenameSafe(t, source, dest, granted)
  {
    if RenameSafe(t, source, dest, granted) {
      RenameKeeps(t, h, source, dest, granted);
    } else {
      RenameBreaks(t, h, source, dest, granted);
    }
  }

  // ----- link -----

  /** The number of the slot a file gets. */
  function SlotOf(t: Tree, u: string, l2sDirectory: string): string {
    var base := BaseOf(u, l2sDirectory);
    Slot(base, FreeSlot(t, base, 1))
  }

  /** What link needs: a count below the last one and free final names, or a free slot for a file
      linked for the first time, with room to undo it when the name cannot be made. */
  predicate LinkSafe(t: Tree, source: string, dest: string, l2sDirectory: string, refused: bool) {
    source in t ==>
      match t[source]
      case Link(j) =>
        j in t && t[j].Link? ==> Suffix(t[j].target) < MAX_COUNT && WithCount(t[j].target, Suffix(t[j].target) + 1) !in t
      case Regular(_) =>
        TooLong(source, l2sDirectory) ||
        var i := SlotOf(t, source, l2sDirectory);
        i !in t && Final(i, 2) !in t && (refused || dest in t ==> Final(i, 1) !in t)
  }

  function AfterLink(h: Hard, source: string, dest: string, status: int): Hard {
    if status == 0 then HardLinked(h, source, dest) else h
  }

  /** A file was linked, and its count is ahead by one: the new name is made, or the count goes back. */
  lemma SecondHalf(T: Tree, h: Hard, source: string, dest: string, j: string, refused: bool)
    requires CountedBut(T, j, 1) && Represents(T, h) && source in T && !IsL2s(source) && !IsL2s(dest) && T[source] == Link(j)
    requires refused || dest in T ==> Final(j, |Pointing(T, j)|) !in T
    ensures if refused || dest in T then Keeps(Decremented(T, source).tree, h)
            else Keeps(T[dest := Link(j)], HardLinked(h, source, dest))
  {
    NamesKnown(T, h);
    PlacedAt(T, source);
    if refused || dest in T {
      Undo(T, h, source, j);
    } else {
      AddName(T, j, 1, dest);
      ZeroOff(T[dest := Link(j)], j);
      AddNameRepresents(T, h, j, dest, source);
    }
  }

  lemma Undo(T: Tree, h: Hard, source: string, j: string)
    requires CountedBut(T, j, 1) && Represents(T, h) && source in T && !IsL2s(source) && T[source] == Link(j)
    requires Final(j, |Pointing(T, j)|) !in T
    ensures Keeps(Decremented(T, source).tree, h)
  {
    var k, f, n := ReadsAt(T, source, 1);
    PointedAt(T, source, j);
    var f' := RecountAt(T, source, j, f, n, n - 1);
    DecrementRecounts(T, source, j, 1, f, n, f');
    RecountKeeps(T, j, 1, n - 1, f, f', 0);
    RecountRepresents(T, j, 1, n - 1, f, f', h);
    ZeroOff(Replaced(T, j, f, f'), j);
  }

  lemma PointedAt(t: Tree, u: string, j: string)
    requires u in t && !IsL2s(u) && t[u] == Link(j)
    ensures |Pointing(t, j)| >= 1
  {
    assert u in Pointing(t, j);
  }

  /** The first half, for a file that is emulated already. */
  lemma Incremented(t: Tree, h: Hard, source: string, j: string, f: string, n: nat, f': string)
    requires Keeps(t, h) && n == |Pointing(t, j)| && Recounts(t, j, 0, n + 1, f, f') && f' != j
    requires source in t && !IsL2s(source) && t[source] == Link(j)
    ensures var T := Replaced(t, j, f, f');
            && CountedBut(T, j, 1) && Represents(T, h) && source in T && T[source] == Link(j)
            && f !in T && Pointing(T, j) == Pointing(t, j)
  {
    ZeroOff(t, j);
    RecountedUp(t, h, j, f, n, f');
    ReplacedSource(t, source, j, f, f');
  }

  lemma RecountsUp(t: Tree, j: string, f: string, n: nat, f': string)
    requires Consistent(t) && n == |Pointing(t, j)| && n < MAX_COUNT && IsL2s(j) && PointsTo(t, j, f)
    requires f' == Final(j, n + 1) && f' !in t
    ensures Recounts(t, j, 0, n + 1, f, f')
  {
    ZeroOff(t, j);
    RecountsAt(t, j, 0, n + 1);
  }

  lemma RecountedUp(t: Tree, h: Hard, j: string, f: string, n: nat, f': string)
    requires CountedBut(t, j, 0) && Represents(t, h) && n == |Pointing(t, j)| && Recounts(t, j, 0, n + 1, f, f')
    ensures var T := Replaced(t, j, f, f'); CountedBut(T, j, 1) && Represents(T, h)
  {
    RecountKeeps(t, j, 0, n + 1, f, f', 1);
    RecountRepresents(t, j, 0, n + 1, f, f', h);
  }

  lemma ReplacedSource(t: Tree, source: string, j: string, f: string, f': string)
    requires f in t && f != j && f' != j && f != f' && IsL2s(j) && IsL2s(f) && IsL2s(f')
    requires source in t && !IsL2s(source) && t[source] == Link(j)
    ensures var T := Replaced(t, j, f, f');
            source in T && T[source] == Link(j) && f !in T && Pointing(T, j) == Pointing(t, j)
  {
    ReplacedNames(t, j, f, f', source);
    ReplacedPointing(t, j, f, f', j);
  }

  lemma MovedLinked(t: Tree, source: string, j: string, f: string, n: nat, f': string, l2sDirectory: string)
    requires Reads(t, source, j, f, n) && f' == WithCount(f, n + 1)
    ensures Moved(t, source, l2sDirectory) == Move(0, Replaced(t, j, f, f'), j)
  {
    RelinkedIs(t, j, f, f');
    MovedAs(t, source, j, f, n, f', l2sDirectory);
  }

  lemma MovedAs(t: Tree, source: string, j: string, f: string, n: nat, f': string, l2sDirectory: string)
    requires source in t && t[source] == Link(j) && IsL2s(j) && j in t && t[j] == Link(f)
    requires Suffix(f) == n && f' == WithCount(f, n + 1)
    ensures var r := Relinked(t, j, f, f'); Moved(t, source, l2sDirectory) == Move(r.status, r.tree, j)
  {
  }

  lemma NamesStay(t: Tree, j: string, f: string, f': string, x: string)
    requires f in t && f != j && f' != j && f != f' && IsL2s(j) && IsL2s(f) && IsL2s(f') && !IsL2s(x)
    ensures x in Replaced(t, j, f, f') <==> x in t
  {
    ReplacedNames(t, j, f, f', x);
  }

  lemma LinkAgain(t: Tree, h: Hard, source: string, dest: string, l2sDirectory: string, refused: bool)
    requires Keeps(t, h) && source in t && !IsL2s(source) && !IsL2s(dest) && t[source].Link?
    requires LinkSafe(t, source, dest, l2sDirectory, refused)
    ensures var r := Linked(t, source, dest, l2sDirectory, refused); Keeps(r.tree, AfterLink(h, source, dest, r.status))
  {
    ZeroOff(t, t[source].target);
    var j, f, n := ReadsAt(t, source, 0);
    var f' := RecountAt(t, source, j, f, n, n + 1);
    MovedLinked(t, source, j, f, n, f', l2sDirectory);
    RecountsUp(t, j, f, n, f');
    Incremented(t, h, source, j, f, n, f');
    NamesStay(t, j, f, f', dest);
    SecondHalf(Replaced(t, j, f, f'), h, source, dest, j, refused);
  }

  // ----- The first link of a file -----

  lemma {:induction false} NameStartOfDirectory(d: string)
    requires d == "" || d[|d| - 1] == '/'
    ensures NameStart(d) == |d|
  {
  }

  lemma {:induction false} NoSlashAfter(s: string)
    ensures '/' !in s[NameStart(s)..]
    ensures NameStart(s) > 0 ==> s[NameStart(s) - 1] == '/'
    decreases |s|
  {
    if s != "" && s[|s| - 1] != '/' {
      var front := s[..|s| - 1];
      NoSlashAfter(front);
      var n := NameStart(s);
      assert s[n..] == front[n..] + [s[|s| - 1]];
    }
  }

  /** The directory part of a base, and what follows it. */
  lemma BaseParts(u: string, l2sDirectory: string) returns (d: string, rest: string)
    ensures BaseOf(u, l2sDirectory) == d + rest && (d == "" || d[|d| - 1] == '/') && rest == PREFIX + u[NameStart(u)..]
  {
    var start := NameStart(u);
    NoSlashAfter(u);
    d := if l2sDirectory == "" then u[..start]
         else if l2sDirectory[|l2sDirectory| - 1] == '/' then l2sDirectory
         else l2sDirectory + "/";
    rest := PREFIX + u[start..];
    assert BaseOf(u, l2sDirectory) == d + PREFIX + u[start..];
  }

  lemma PrefixL2s(d: string, rest: string)
    requires (d == "" || d[|d| - 1] == '/') && '/' !in rest && |rest| >= 5
    requires rest[0] == '.' && rest[1] == 'l' && rest[2] == '2' && rest[3] == 's' && rest[4] == '.'
    ensures IsL2s(d + rest)
  {
    NameStartOfDirectory(d);
    NameStartAppend(d, rest);
  }

  /** The names the code makes are its own. */
  lemma SlotIsL2s(u: string, l2sDirectory: string, k: nat)
    requires k < 10000
    ensures IsL2s(Slot(BaseOf(u, l2sDirectory), k))
  {
    var d, rest := BaseParts(u, l2sDirectory);
    NoSlashAfter(u);
    PrefixL2s(d, rest);
    PaddedHasNoSlash(k);
    L2sAppend(d + rest, Padded(k));
  }

  lemma MovedFirst(t: Tree, source: string, l2sDirectory: string)
    requires source in t && t[source].Regular? && !TooLong(source, l2sDirectory) && !IsL2s(source)
    requires IsL2s(SlotOf(t, source, l2sDirectory)) && IsL2s(Final(SlotOf(t, source, l2sDirectory), 2))
    ensures var i := SlotOf(t, source, l2sDirectory);
            && (i !in t && i != Final(i, 2) ==> Moved(t, source, l2sDirectory) == Move(0, FirstLinked(t, source, i), i))
            && (i in t && i != source ==>
                  Moved(t, source, l2sDirectory) == Move(-1, (t - {source})[Final(i, 2) := t[source]], i))
  {
  }

  lemma FirstLinkName(t: Tree, u: string, i: string, x: string)
    requires Convertible(t, u, i) && !IsL2s(x)
    ensures x in FirstLinked(t, u, i) <==> x in t
  {
    FirstLinkedNames(t, u, i, Final(i, 2), x);
  }

  lemma FirstLinkPointing(t: Tree, u: string, i: string)
    requires Consistent(t) && Convertible(t, u, i)
    ensures |Pointing(FirstLinked(t, u, i), i)| == 1
  {
    DropRegular(t, u);
    NobodyPoints(t - {u}, i);
    NewPairPointing(t - {u}, i, t[u], i);
    AddedPointing(WithPair(t - {u}, i, t[u]), i, u);
  }

  lemma SlotConvertible(t: Tree, u: string, l2sDirectory: string)
    requires u in t && !IsL2s(u) && t[u].Regular?
    ensures var i := SlotOf(t, u, l2sDirectory);
            IsL2s(i) && IsL2s(Final(i, 2)) && i != u && i != Final(i, 2) && (i !in t && Final(i, 2) !in t ==> Convertible(t, u, i))
  {
    var i := SlotOf(t, u, l2sDirectory);
    SlotIsL2s(u, l2sDirectory, FreeSlot(t, BaseOf(u, l2sDirectory), 1));
    FinalParts(i, 2);
  }

  lemma LinkFirst(t: Tree, h: Hard, source: string, dest: string, l2sDirectory: string, refused: bool)
    requires Keeps(t, h) && source in t && !IsL2s(source) && !IsL2s(dest) && t[source].Regular?
    requires LinkSafe(t, source, dest, l2sDirectory, refused)
    ensures var r := Linked(t, source, dest, l2sDirectory, refused); Keeps(r.tree, AfterLink(h, source, dest, r.status))
  {
    if !TooLong(source, l2sDirectory) {
      var i := SlotOf(t, source, l2sDirectory);
      SlotConvertible(t, source, l2sDirectory);
      MovedFirst(t, source, l2sDirectory);
      FirstLinkSecond(t, h, source, dest, i, refused);
    }
  }

  lemma FirstLinkSecond(t: Tree, h: Hard, source: string, dest: string, i: string, refused: bool)
    requires Keeps(t, h) && Convertible(t, source, i) && !IsL2s(dest)
    requires refused || dest in t ==> Final(i, 1) !in t
    ensures var T := FirstLinked(t, source, i);
            && source in T && T[source] == Link(i) && (dest in T <==> dest in t)
            && if refused || dest in T then Keeps(Decremented(T, source).tree, h)
               else Keeps(T[dest := Link(i)], HardLinked(h, source, dest))
  {
    var T := FirstLinked(t, source, i);
    FirstLink(t, source, i);
    FirstLinkRepresents(t, h, source, i);
    FirstLinkPointing(t, source, i);
    FirstLinkName(t, source, i, dest);
    FirstLinkedNames(t, source, i, Final(i, 2), Final(i, 1));
    OneIsNotTwo(i);
    SecondHalf(T, h, source, dest, i, refused);
  }

  lemma OneIsNotTwo(i: string)
    requires IsL2s(i)
    ensures Final(i, 1) != Final(i, 2) && Final(i, 1) != i && IsL2s(Final(i, 1))
  {
    FinalParts(i, 1);
    FinalParts(i, 2);
  }

  lemma LinkKeeps(t: Tree, h: Hard, source: string, dest: string, l2sDirectory: string, refused: bool)
    requires Keeps(t, h) && !IsL2s(source) && !IsL2s(dest)
    requires LinkSafe(t, source, dest, l2sDirectory, refused)
    ensures var r := Linked(t, source, dest, l2sDirectory, refused); Keeps(r.tree, AfterLink(h, source, dest, r.status))
  {
    if source in t {
      if t[source].Link? {
        LinkAgain(t, h, source, dest, l2sDirectory, refused);
      } else {
        LinkFirst(t, h, source, dest, l2sDirectory, refused);
      }
    }
  }

  // ----- Where link breaks the tree -----

  /** A name that dangles after the first half still does once the count went back. */
  lemma UndoDangles(T: Tree, v: string, source: string, j: string, g: string, n: nat)
    requires v in T && !IsL2s(v) && T[v] == Link(g) && IsL2s(j) && IsL2s(g) && j != g
    requires IntermediateOf(T, source) == Some(j) && PointsTo(T, j, g) && Suffix(g) == n && n >= 2
    requires WithCount(g, n - 1) != g && IsL2s(WithCount(g, n - 1))
    ensures Dangling(Decremented(T, source).tree, v)
  {
    var f := WithCount(g, n - 1);
    assert Decremented(T, source) == Effect(0, Replaced(T, j, g, f));
    assert v != j && v != g && v != f;
  }

  lemma AddDangles(T: Tree, v: string, dest: string, j: string)
    requires Dangling(T, v) && dest !in T && !IsL2s(dest) && IsL2s(T[v].target)
    ensures Dangling(T[dest := Link(j)], v)
  {
  }

  /** In either case the tree is broken in the end. */
  lemma HalfBreaks(T: Tree, v: string, source: string, dest: string, j: string, g: string, n: nat, refused: bool)
    requires Dangling(T, v) && T[v] == Link(g) && IsL2s(j) && IsL2s(g) && j != g && !IsL2s(dest)
    requires IntermediateOf(T, source) == Some(j) && PointsTo(T, j, g) && Suffix(g) == n && n >= 2
    requires WithCount(g, n - 1) != g && IsL2s(WithCount(g, n - 1))
    ensures !Consistent(if refused || dest in T then Decremented(T, source).tree else T[dest := Link(j)])
  {
    if refused || dest in T {
      UndoDangles(T, v, source, j, g, n);
      DanglingBreaks(Decremented(T, source).tree, v);
    } else {
      AddDangles(T, v, dest, j);
      DanglingBreaks(T[dest := Link(j)], v);
    }
  }

  lemma LinkTaken(t: Tree, source: string, dest: string, j: string, f: string, n: nat, f': string, refused: bool)
    requires Consistent(t) && Reads(t, source, j, f, n) && n < MAX_COUNT && Recount(j, f, n + 1, f') && f' in t && !IsL2s(dest)
    ensures var T := Replaced(t, j, f, f');
            !Consistent(if refused || dest in T then Decremented(T, source).tree else T[dest := Link(j)])
  {
    var T := Replaced(t, j, f, f');
    var v := TakenByLink(t, j, n + 1);
    OverwrittenDangles(t, j, f, f', v);
    ReplacedNames(t, j, f, f', v);
    ReplacedNames(t, j, f, f', source);
    FinalParts(j, n + 1);
    FinalParts(j, n);
    HalfBreaks(T, v, source, dest, j, f', n + 1, refused);
  }

  /** A fifth digit: the count is lost. */
  lemma FifthDigit(j: string, f: string)
    requires f == Final(j, MAX_COUNT) && IsL2s(j)
    ensures var g := WithCount(f, MAX_COUNT + 1); |g| > |j| + 5 && Suffix(g) == 0 && IsL2s(g)
  {
    FinalParts(j, MAX_COUNT);
    TenThousand();
    var digits := "." + Padded(10000);
    assert '/' !in digits;
    L2sAppend(j, digits);
    assert j + digits == WithCount(f, MAX_COUNT + 1);
  }

  lemma TenThousand()
    ensures Padded(10000) == [Digit(1), Digit(0), Digit(0), Digit(0), Digit(0)]
  {
    assert Decimal(1) == [Digit(1)];
    assert Decimal(10) == [Digit(1), Digit(0)];
    assert Decimal(100) == [Digit(1), Digit(0), Digit(0)];
    assert Decimal(1000) == [Digit(1), Digit(0), Digit(0), Digit(0)];
    assert Decimal(10000) == [Digit(1), Digit(0), Digit(0), Digit(0), Digit(0)];
  }

  lemma LinkOverflows(t: Tree, source: string, dest: string, j: string, f: string, g: string, refused: bool)
    requires Consistent(t) && Reads(t, source, j, f, MAX_COUNT) && g == WithCount(f, MAX_COUNT + 1) && !IsL2s(dest)
    ensures var T := Replaced(t, j, f, g);
            !Consistent(if refused || dest in T then Decremented(T, source).tree else T[dest := Link(j)])
  {
    FifthDigit(j, f);
    FinalParts(j, MAX_COUNT);
    var T := Replaced(t, j, f, g);
    assert g != j && g != f;
    ReplacedNames(t, j, f, g, source);
    if refused || dest in T {
      OverflowUndone(T, source, j, g);
    } else {
      NotCounted(T[dest := Link(j)], j, g);
    }
  }

  /** The undo takes the count for zero, and deletes the file. */
  lemma OverflowUndone(T: Tree, source: string, j: string, g: string)
    requires source in T && !IsL2s(source) && T[source] == Link(j) && IsL2s(j) && j in T && T[j] == Link(g) && g in T
    requires Suffix(g) == 0 && source != g && g != j
    ensures !Consistent(Decremented(T, source).tree)
  {
    assert IntermediateOf(T, source) == Some(j);
    assert Decremented(T, source) == Effect(0, T - {j} - {g});
    DanglingBreaks(T - {j} - {g}, source);
  }

  lemma NotCounted(t: Tree, j: string, g: string)
    requires j in t && IsL2s(j) && t[j] == Link(g) && |g| > |j| + 5
    ensures !Consistent(t)
  {
    if Consistent(t) {
      CountedAt(t, "", 0, j);
    }
  }

  lemma LinkAgainBreaks(t: Tree, h: Hard, source: string, dest: string, l2sDirectory: string, refused: bool)
    requires Keeps(t, h) && source in t && !IsL2s(source) && !IsL2s(dest) && t[source].Link?
    requires !LinkSafe(t, source, dest, l2sDirectory, refused)
    ensures !Consistent(Linked(t, source, dest, l2sDirectory, refused).tree)
  {
    ZeroOff(t, t[source].target);
    var j, f, n := ReadsAt(t, source, 0);
    var g := WithCount(f, n + 1);
    MovedLinked(t, source, j, f, n, g, l2sDirectory);
    if n == MAX_COUNT {
      LinkOverflows(t, source, dest, j, f, g, refused);
    } else {
      var f' := RecountAt(t, source, j, f, n, n + 1);
      LinkTaken(t, source, dest, j, f, n, f', refused);
    }
  }

  lemma FirstLinkOver(t: Tree, u: string, i: string, f: string, x: string)
    requires u in t && !IsL2s(u) && t[u].Regular? && IsL2s(i) && IsL2s(f) && f == Final(i, 2) && f != i
    ensures var t' := FirstLinked(t, u, i);
            && u in t' && t'[u] == Link(i) && i in t' && t'[i] == Link(f) && f in t' && t'[f] == t[u]
            && (x != u && x != i && x != f ==> (x in t' <==> x in t) && (x in t ==> t'[x] == t[x]))
  {
  }

  lemma FirstTaken(t: Tree, source: string, dest: string, i: string, refused: bool)
    requires Consistent(t) && source in t && !IsL2s(source) && t[source].Regular? && !IsL2s(dest)
    requires IsL2s(i) && i !in t && Final(i, 2) in t
    ensures var T := FirstLinked(t, source, i);
            !Consistent(if refused || dest in T then Decremented(T, source).tree else T[dest := Link(i)])
  {
    var f, T := Final(i, 2), FirstLinked(t, source, i);
    FinalParts(i, 2);
    OneIsNotTwo(i);
    var v := TakenByLink(t, i, 2);
    FirstLinkOver(t, source, i, f, v);
    HalfBreaks(T, v, source, dest, i, f, 2, refused);
  }

  /** The undo overwrites the intermediate link of another file. */
  lemma UndoTaken(t: Tree, source: string, i: string)
    requires Consistent(t) && Convertible(t, source, i) && Final(i, 1) in t
    ensures !Consistent(Decremented(FirstLinked(t, source, i), source).tree)
  {
    var f, g := Final(i, 2), Final(i, 1);
    OneIsNotTwo(i);
    var v := TakenByLink(t, i, 1);
    UndoOverwrites(t, source, i, f, g, v);
    UndoneFirst(t, source, i, f, g);
    DanglingBreaks(Replaced(FirstLinked(t, source, i), i, f, g), v);
  }

  lemma UndoneFirst(t: Tree, source: string, i: string, f: string, g: string)
    requires Convertible(t, source, i) && f == Final(i, 2) && g == Final(i, 1)
    ensures f in FirstLinked(t, source, i)
    ensures Decremented(FirstLinked(t, source, i), source) == Effect(0, Replaced(FirstLinked(t, source, i), i, f, g))
  {
    FinalParts(i, 2);
    FirstLinkOver(t, source, i, f, source);
    IntermediateIs(FirstLinked(t, source, i), source, i);
    DecrementedAs(FirstLinked(t, source, i), source, i, f, 2, g);
  }

  lemma UndoOverwrites(t: Tree, source: string, i: string, f: string, g: string, v: string)
    requires Convertible(t, source, i) && f == Final(i, 2) && g != f && g != i && IsL2s(g) && g in t
    requires v in t && !IsL2s(v) && t[v] == Link(g)
    ensures f in FirstLinked(t, source, i) && Dangling(Replaced(FirstLinked(t, source, i), i, f, g), v)
  {
    FinalParts(i, 2);
    FirstLinkOver(t, source, i, f, v);
    FirstLinkOver(t, source, i, f, g);
    OverwrittenDangles(FirstLinked(t, source, i), i, f, g, v);
  }

  lemma LinkFirstBreaks(t: Tree, h: Hard, source: string, dest: string, l2sDirectory: string, refused: bool)
    requires Keeps(t, h) && source in t && !IsL2s(source) && !IsL2s(dest) && t[source].Regular?
    requires !LinkSafe(t, source, dest, l2sDirectory, refused)
    ensures var r := Linked(t, source, dest, l2sDirectory, refused); !Keeps(r.tree, AfterLink(h, source, dest, r.status))
  {
    var i := SlotOf(t, source, l2sDirectory);
    SlotConvertible(t, source, l2sDirectory);
    MovedFirst(t, source, l2sDirectory);
    if i in t {
      NoSlot(t, h, source, i);
    } else if Final(i, 2) in t {
      FirstTaken(t, source, dest, i, refused);
    } else {
      FirstLinkName(t, source, i, dest);
      UndoTaken(t, source, i);
    }
  }

  /** Without a free slot, the file is renamed and its name is lost. */
  lemma NoSlot(t: Tree, h: Hard, source: string, i: string)
    requires Keeps(t, h) && source in t && !IsL2s(source) && Final(i, 2) != source
    ensures !Represents((t - {source})[Final(i, 2) := t[source]], h)
  {
    NamesKnown(t, h);
    var moved := (t - {source})[Final(i, 2) := t[source]];
    if Represents(moved, h) {
      ShownAt(moved, h, source);
    }
  }

  /** link keeps the tree right, whether the new name can be made or not, if and only if it is safe. */
  lemma LinkKeepsIff(t: Tree, h: Hard, source: string, dest: string, l2sDirectory: string, refused: bool)
    requires Keeps(t, h) && !IsL2s(source) && !IsL2s(dest)
    ensures var r := Linked(t, source, dest, l2sDirectory, refused);
            Keeps(r.tree, AfterLink(h, source, dest, r.status)) <==> LinkSafe(t, source, dest, l2sDirectory, refused)
  {
    if LinkSafe(t, source, dest, l2sDirectory, refused) {
      LinkKeeps(t, h, source, dest, l2sDirectory, refused);
    } else if t[source].Link? {
      LinkAgainBreaks(t, h, source, dest, l2sDirectory, refused);
    } else {
      LinkFirstBreaks(t, h, source, dest, l2sDirectory, refused);
    }
  }

  // ----- What the calls answer -----

  /** What link(2) answers, when it may be refused for reasons of the host. */
  function LinkAnswer(h: Hard, source: string, dest: string, refused: bool): int {
    if source !in h.names then -ENOENT else if refused || dest in h.names then -EEXIST else 0
  }

  /** The first link of a file needs a name that is not too long, and a free slot. */
  predicate HasRoom(t: Tree, source: string, l2sDirectory: string) {
    source in t && t[source].Regular? ==> !TooLong(source, l2sDirectory) && SlotOf(t, source, l2sDirectory) !in t
  }

  lemma SameNames(t: Tree, h: Hard, u: string)
    requires Represents(t, h) && !IsL2s(u)
    ensures u in t <==> u in h.names
  {
    if u in t || u in h.names {
      ShownAt(t, h, u);
    }
  }

  /** link answers what link(2) does if and only if it has room; otherwise it is refused, and when it
      answers 0 the new name is there, with a content of its own file. */
  lemma LinkAnswers(t: Tree, h: Hard, source: string, dest: string, l2sDirectory: string, refused: bool)
    requires Keeps(t, h) && !IsL2s(source) && !IsL2s(dest)
    ensures var r := Linked(t, source, dest, l2sDirectory, refused);
            && r.status == (if HasRoom(t, source, l2sDirectory) then LinkAnswer(h, source, dest, refused)
                            else if TooLong(source, l2sDirectory) then -ENAMETOOLONG else -1)
            && (r.status == 0 ==> dest in r.tree && source in r.tree && r.tree[dest] == r.tree[source])
  {
    SameNames(t, h, source);
    SameNames(t, h, dest);
    if source in t {
      if t[source].Link? {
        LinkedAnswers(t, source, dest, l2sDirectory, refused);
      } else {
        FirstAnswers(t, source, dest, l2sDirectory, refused);
      }
    }
  }

  lemma LinkedAnswers(t: Tree, source: string, dest: string, l2sDirectory: string, refused: bool)
    requires Consistent(t) && source in t && !IsL2s(source) && !IsL2s(dest) && t[source].Link?
    ensures var r := Linked(t, source, dest, l2sDirectory, refused);
            && r.status == (if refused || dest in t then -EEXIST else 0)
            && (r.status == 0 ==> dest in r.tree && source in r.tree && r.tree[dest] == r.tree[source])
  {
    ZeroOff(t, t[source].target);
    var j, f, n := ReadsAt(t, source, 0);
    var g := WithCount(f, n + 1);
    MovedLinked(t, source, j, f, n, g, l2sDirectory);
    OwnName(j, f, n, g);
    OverOthers(t, j, f, g, source);
    OverOthers(t, j, f, g, dest);
  }

  lemma OwnName(j: string, f: string, n: nat, g: string)
    requires IsL2s(j) && f == Final(j, n) && n <= MAX_COUNT && g == WithCount(f, n + 1)
    ensures IsL2s(g)
  {
    if n < MAX_COUNT {
      CountOfFinal(j, n, n + 1);
      FinalParts(j, n + 1);
    } else {
      FifthDigit(j, f);
    }
  }

  lemma CountOfFinal(j: string, n: nat, m: nat)
    requires n <= MAX_COUNT
    ensures WithCount(Final(j, n), m) == Final(j, m)
  {
    FinalParts(j, n);
  }

  lemma OverOthers(t: Tree, j: string, f: string, g: string, x: string)
    requires f in t && IsL2s(j) && IsL2s(f) && IsL2s(g) && !IsL2s(x)
    ensures var t' := Replaced(t, j, f, g); (x in t' <==> x in t) && (x in t ==> t'[x] == t[x])
  {
  }

  lemma FirstAnswers(t: Tree, source: string, dest: string, l2sDirectory: string, refused: bool)
    requires Consistent(t) && source in t && !IsL2s(source) && !IsL2s(dest) && t[source].Regular?
    ensures var r := Linked(t, source, dest, l2sDirectory, refused);
            && r.status == (if TooLong(source, l2sDirectory) then -ENAMETOOLONG
                            else if SlotOf(t, source, l2sDirectory) in t then -1
                            else if refused || dest in t then -EEXIST else 0)
            && (r.status == 0 ==> dest in r.tree && source in r.tree && r.tree[dest] == r.tree[source])
  {
    if !TooLong(source, l2sDirectory) {
      var i := SlotOf(t, source, l2sDirectory);
      SlotConvertible(t, source, l2sDirectory);
      MovedFirst(t, source, l2sDirectory);
      if i !in t && dest != source {
        FirstLinkOver(t, source, i, Final(i, 2), dest);
      }
    }
  }

  /** The decrement never fails on a tree that is consistent, and leaves the names. */
  lemma DecrementAnswers(t: Tree, u: string, x: string)
    requires Consistent(t) && !IsL2s(u) && !IsL2s(x)
    ensures Decremented(t, u).status == 0 && (x in Decremented(t, u).tree <==> x in t)
  {
    if u in t && t[u].Link? {
      EmulatedUnsafe(t, u);
      EmulatedElsewhere(t, u, x);
    } else {
      NotEmulated(t, u);
    }
  }

  /** unlink and rename succeed exactly when the host grants them and the old name exists. */
  lemma UnlinkAnswers(t: Tree, h: Hard, u: string, granted: bool)
    requires Keeps(t, h) && !IsL2s(u)
    ensures var r := Unlinked(t, u, granted);
            r.status == (if granted && u in h.names then 0 else -1) && (r.status == 0 ==> u !in r.tree)
  {
    SameNames(t, h, u);
    DecrementAnswers(t, u, u);
  }

  lemma RenameAnswers(t: Tree, h: Hard, source: string, dest: string, granted: bool)
    requires Keeps(t, h) && !IsL2s(source) && !IsL2s(dest)
    ensures var r := Renamed(t, source, dest, granted);
            r.status == (if granted && source in h.names then 0 else -1) && (r.status == 0 ==> dest in r.tree)
  {
    SameNames(t, h, source);
    DecrementAnswers(t, dest, source);
  }

  // ----- The length test -----

  /** The length of the intermediate name a file gets, against what the test measures: beside the file
      the test tells whether the name fits, null byte included. */
  lemma LengthTest(t: Tree, u: string)
    ensures TooLong(u, "") <==> |SlotOf(t, u, "")| + 1 >= PATH_MAX
  {
    assert |Padded(FreeSlot(t, BaseOf(u, ""), 1))| == 4;
  }

  /** In a directory of its own, it does so if and only if it makes no difference that it measures the
      directories of the file in place of its name, and a slash that may not be needed. */
  lemma {:induction false} LengthTestIff(t: Tree, u: string, l2sDirectory: string)
    requires l2sDirectory != ""
    ensures var name := |u| - NameStart(u) + (if l2sDirectory[|l2sDirectory| - 1] == '/' then 0 else 1);
            && |SlotOf(t, u, l2sDirectory)| == |PREFIX| + |l2sDirectory| + name + 4
            && ((TooLong(u, l2sDirectory) <==> |SlotOf(t, u, l2sDirectory)| + 1 >= PATH_MAX) <==>
                  (|l2sDirectory| + 11 + NameStart(u) >= PATH_MAX <==> |l2sDirectory| + 10 + name >= PATH_MAX))
  {
    assert |Padded(FreeSlot(t, BaseOf(u, l2sDirectory), 1))| == 4;
  }

  /** A file with a short name, deep in the tree, is refused although its intermediate name fits. */
  lemma {:induction false} DeepFileRefused(t: Tree, l2sDirectory: string, deep: string, name: char)
    requires l2sDirectory != "" && |l2sDirectory| < 4000 && name != '/'
    requires |deep| == 4090 && deep[4089] == '/'
    ensures TooLong(deep + [name], l2sDirectory) && |SlotOf(t, deep + [name], l2sDirectory)| + 1 < PATH_MAX
  {
    NameStartOfDirectory(deep);
    NameStartAppend(deep, [name]);
    LengthTestIff(t, deep + [name], l2sDirectory);
  }
}
