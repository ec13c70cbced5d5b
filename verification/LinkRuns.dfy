/** Emulated hard links over whole runs of operations. */
module LinkRuns {
  import opened Common
  import opened Link2Symlink
  import opened HardLinks

  // ----- Names that cannot collide -----

  predicate DottedSlot(i: string) {
    |i| >= 5 && i[|i| - 5] == '.'
  }

  ghost function Dotted(t: Tree): set<string> {
    set i | i in t && IsL2s(i) && t[i].Link? && DottedSlot(i)
  }

  /** No intermediate link looks like a final name. */
  ghost predicate Dotless(t: Tree) {
    Dotted(t) == {}
  }

  /** Then a final name is only taken by the file it is meant for. */
  lemma DotlessFree(t: Tree, j: string, m: nat)
    requires Consistent(t) && Dotless(t) && IsL2s(j) && m <= MAX_COUNT && Final(j, m) in t
    ensures j in t && t[j] == Link(Final(j, m))
  {
    var f := Final(j, m);
    FinalParts(j, m);
    assert f !in Dotted(t);
    PlacedAt(t, f);
  }

  /** The slot of a name that ends with four digits and a dot is the final name of another file. */
  lemma DottedNameCollides(base: string, k: nat, n: nat)
    requires k < 10000 && n < 10000
    ensures Slot(Slot(base, k) + ".", n) == Final(Slot(base, k), n)
  {
  }

  lemma DotlessCount(t: Tree, u: string, j: string, f: string, n: nat, m: nat, f': string)
    requires Consistent(t) && Dotless(t) && Reads(t, u, j, f, n) && Recount(j, f, m, f')
    ensures f' !in t
  {
    if f' in t {
      DotlessFree(t, j, m);
    }
  }

  lemma DotlessUnlink(t: Tree, u: string, granted: bool)
    requires Consistent(t) && Dotless(t) && !IsL2s(u) && (u in t && t[u].Link? ==> granted)
    ensures UnlinkSafe(t, u, granted)
  {
    if u in t && t[u].Link? {
      ZeroOff(t, t[u].target);
      var j, f, n := ReadsAt(t, u, 0);
      if n == 1 {
        SafeLast(t, u, j, f, granted);
      } else {
        var f' := RecountAt(t, u, j, f, n, n - 1);
        DotlessCount(t, u, j, f, n, n - 1, f');
        SafeMany(t, u, j, f, n, f', granted);
      }
    } else {
      NotEmulated(t, u);
    }
  }

  /** What is left to check before a link: the count, or a free slot. */
  predicate Linkable(t: Tree, source: string, l2sDirectory: string) {
    source in t ==>
      match t[source]
      case Link(j) => j in t && t[j].Link? ==> Suffix(t[j].target) < MAX_COUNT
      case Regular(_) => TooLong(source, l2sDirectory) || SlotOf(t, source, l2sDirectory) !in t
  }

  lemma DotlessLink(t: Tree, source: string, dest: string, l2sDirectory: string, refused: bool)
    requires Consistent(t) && Dotless(t) && !IsL2s(source) && Linkable(t, source, l2sDirectory)
    ensures LinkSafe(t, source, dest, l2sDirectory, refused)
  {
    if source in t {
      if t[source].Link? {
        ZeroOff(t, t[source].target);
        var j, f, n := ReadsAt(t, source, 0);
        var f' := RecountAt(t, source, j, f, n, n + 1);
        DotlessCount(t, source, j, f, n, n + 1, f');
      } else if !TooLong(source, l2sDirectory) {
        var i := SlotOf(t, source, l2sDirectory);
        SlotConvertible(t, source, l2sDirectory);
        if Final(i, 2) in t {
          DotlessFree(t, i, 2);
        }
        if Final(i, 1) in t {
          DotlessFree(t, i, 1);
        }
      }
    }
  }

  // ----- The intermediate links an operation makes -----

  ghost function NewLinks(t: Tree, t': Tree): set<string> {
    set x | x in t' && IsL2s(x) && t'[x].Link? && !(x in t && t[x].Link?)
  }

  lemma NewLinksDotless(t: Tree, t': Tree, i: string)
    requires Dotless(t) && NewLinks(t, t') <= {i} && !DottedSlot(i)
    ensures Dotless(t')
  {
    forall x | x in t' && IsL2s(x) && t'[x].Link? ensures !DottedSlot(x) {
      assert x !in Dotted(t);
      assert x in NewLinks(t, t') ==> x == i;
    }
  }

  lemma DecrementLinks(t: Tree, u: string, off: int)
    requires u in t && !IsL2s(u) && t[u].Link? && CountedBut(t, t[u].target, off)
    ensures NewLinks(t, Decremented(t, u).tree) == {}
  {
    var j, f, n := ReadsAt(t, u, off);
    if n == 1 {
      DecrementedLast(t, u, j, f);
    } else {
      var f' := RecountAt(t, u, j, f, n, n - 1);
      DecrementedMany(t, u, j, f, n, f');
      ReplacedLinks(t, j, f, f');
    }
  }

  lemma ReplacedLinks(t: Tree, j: string, f: string, f': string)
    requires PointsTo(t, j, f) && f != j && f' != j && f != f'
    ensures NewLinks(t, Replaced(t, j, f, f')) == {}
  {
    var t' := Replaced(t, j, f, f');
    forall x | x in t' && IsL2s(x) && t'[x].Link? ensures x in t && t[x].Link? {
      ReplacedNames(t, j, f, f', x);
    }
  }

  lemma NamesAddNoLinks(t: Tree, t': Tree, t'': Tree, i: string)
    requires NewLinks(t, t') <= {i}
    requires forall x :: x in t'' && IsL2s(x) ==> x in t' && t''[x] == t'[x]
    ensures NewLinks(t, t'') <= {i}
  {
    forall x | x in NewLinks(t, t'') ensures x == i {
      assert x in NewLinks(t, t');
    }
  }

  lemma LinksCompose(t: Tree, t': Tree, t'': Tree, i: string)
    requires NewLinks(t, t') <= {i} && NewLinks(t', t'') == {}
    ensures NewLinks(t, t'') <= {i}
  {
    forall x | x in NewLinks(t, t'') ensures x == i {
      assert x !in NewLinks(t', t'');
      assert x in NewLinks(t, t');
    }
  }

  lemma UnlinkDotless(t: Tree, u: string, granted: bool)
    requires Consistent(t) && Dotless(t) && !IsL2s(u)
    ensures Dotless(Unlinked(t, u, granted).tree) && NewLinks(t, Decremented(t, u).tree) == {}
  {
    if u in t && t[u].Link? {
      ZeroOff(t, t[u].target);
      DecrementLinks(t, u, 0);
    } else {
      NotEmulated(t, u);
    }
    NamesAddNoLinks(t, Decremented(t, u).tree, Unlinked(t, u, granted).tree, "");
    NewLinksDotless(t, Unlinked(t, u, granted).tree, "");
  }

  lemma RenameDotless(t: Tree, source: string, dest: string, granted: bool)
    requires Consistent(t) && Dotless(t) && !IsL2s(source) && !IsL2s(dest)
    ensures Dotless(Renamed(t, source, dest, granted).tree)
  {
    UnlinkDotless(t, dest, granted);
    NamesAddNoLinks(t, Decremented(t, dest).tree, Renamed(t, source, dest, granted).tree, "");
    NewLinksDotless(t, Renamed(t, source, dest, granted).tree, "");
  }

  /** The second half of link adds no intermediate link. */
  lemma HalfLinks(t: Tree, T: Tree, source: string, dest: string, j: string, refused: bool, i: string)
    requires CountedBut(T, j, 1) && source in T && !IsL2s(source) && !IsL2s(dest) && T[source] == Link(j) && NewLinks(t, T) <= {i}
    ensures NewLinks(t, if refused || dest in T then Decremented(T, source).tree else T[dest := Link(j)]) <= {i}
  {
    if refused || dest in T {
      DecrementLinks(T, source, 1);
      LinksCompose(t, T, Decremented(T, source).tree, i);
    } else {
      NamesAddNoLinks(t, T, T[dest := Link(j)], i);
    }
  }

  lemma LinkAgainDotless(t: Tree, h: Hard, source: string, dest: string, l2sDirectory: string, refused: bool)
    requires Keeps(t, h) && Dotless(t) && source in t && !IsL2s(source) && !IsL2s(dest) && t[source].Link?
    requires Linkable(t, source, l2sDirectory)
    ensures Dotless(Linked(t, source, dest, l2sDirectory, refused).tree)
  {
    ZeroOff(t, t[source].target);
    var j, f, n := ReadsAt(t, source, 0);
    var f' := RecountAt(t, source, j, f, n, n + 1);
    MovedLinked(t, source, j, f, n, f', l2sDirectory);
    SecondHalfLinks(t, h, source, dest, j, f, n, f', refused);
    NewLinksDotless(t, Linked(t, source, dest, l2sDirectory, refused).tree, "");
  }

  lemma SecondHalfLinks(t: Tree, h: Hard, source: string, dest: string, j: string, f: string, n: nat, f': string,
                        refused: bool)
    requires Keeps(t, h) && Dotless(t) && Reads(t, source, j, f, n) && !IsL2s(dest)
    requires n == |Pointing(t, j)| && n < MAX_COUNT && Recount(j, f, n + 1, f')
    ensures var T := Replaced(t, j, f, f');
            NewLinks(t, if refused || dest in T then Decremented(T, source).tree else T[dest := Link(j)]) <= {""}
  {
    DotlessCount(t, source, j, f, n, n + 1, f');
    RecountsUp(t, j, f, n, f');
    Incremented(t, h, source, j, f, n, f');
    ReplacedLinks(t, j, f, f');
    HalfLinks(t, Replaced(t, j, f, f'), source, dest, j, refused, "");
  }

  lemma FirstLinks(t: Tree, u: string, i: string)
    requires Convertible(t, u, i)
    ensures NewLinks(t, FirstLinked(t, u, i)) <= {i}
  {
    forall x | x in NewLinks(t, FirstLinked(t, u, i)) ensures x == i {
      FirstLinkedNames(t, u, i, Final(i, 2), x);
    }
  }

  /** A name whose slots do not look like final names. */
  predicate PlainName(u: string) {
    u != "" && u[|u| - 1] != '.' && u[|u| - 1] != '/'
  }

  lemma PlainSlot(u: string, l2sDirectory: string, k: nat)
    requires PlainName(u) && k < 10000
    ensures !DottedSlot(Slot(BaseOf(u, l2sDirectory), k))
  {
    var base := BaseOf(u, l2sDirectory);
    assert base[|base| - 1] == u[|u| - 1];
  }

  lemma LinkFirstDotless(t: Tree, h: Hard, source: string, dest: string, l2sDirectory: string, refused: bool)
    requires Keeps(t, h) && Dotless(t) && source in t && !IsL2s(source) && !IsL2s(dest) && t[source].Regular?
    requires Linkable(t, source, l2sDirectory) && PlainName(source)
    ensures Dotless(Linked(t, source, dest, l2sDirectory, refused).tree)
  {
    if !TooLong(source, l2sDirectory) {
      var i := SlotOf(t, source, l2sDirectory);
      DotlessLink(t, source, dest, l2sDirectory, refused);
      SlotConvertible(t, source, l2sDirectory);
      MovedFirst(t, source, l2sDirectory);
      FirstLink(t, source, i);
      FirstLinkedNames(t, source, i, Final(i, 2), source);
      FirstLinks(t, source, i);
      HalfLinks(t, FirstLinked(t, source, i), source, dest, i, refused, i);
      PlainSlot(source, l2sDirectory, FreeSlot(t, BaseOf(source, l2sDirectory), 1));
      NewLinksDotless(t, Linked(t, source, dest, l2sDirectory, refused).tree, i);
    }
  }

  // ----- Writing and creating files -----

  function HardWritten(h: Hard, u: string, c: Content): Hard {
    if u in h.names then h.(contents := h.contents[h.names[u] := c]) else h
  }

  function HardCreated(h: Hard, u: string, c: Content, id: nat): Hard {
    Hard(h.names[u := id], h.contents[id := c])
  }

  /** The file that holds the content of a name. */
  ghost function Holder(t: Tree, u: string): string
    requires u in t
  {
    if t[u].Link? && t[u].target in t && t[t[u].target].Link? then t[t[u].target].target else u
  }

  lemma HolderIsFile(t: Tree, u: string)
    requires Consistent(t) && u in t && !IsL2s(u)
    ensures Holder(t, u) in t && t[Holder(t, u)].Regular? && Lookup(t, u) == Some(t[Holder(t, u)].content)
    ensures t[u].Regular? ==> Holder(t, u) == u && Ident(t, u) == u
    ensures t[u].Link? ==> Holder(t, u) == Final(t[u].target, |Pointing(t, t[u].target)|) && |Pointing(t, t[u].target)| < 10000
    ensures t[u].Link? ==> IsL2s(Holder(t, u)) && IsL2s(t[u].target) && Ident(t, u) == t[u].target
  {
    if t[u].Link? {
      LinkedLookup(t, u);
    }
  }

  /** Two names have the same holder if and only if they are those of one file. */
  lemma HolderIsIdent(t: Tree, u: string, v: string)
    requires Consistent(t) && u in t && !IsL2s(u) && v in t && !IsL2s(v)
    ensures Holder(t, u) == Holder(t, v) <==> Ident(t, u) == Ident(t, v)
  {
    HolderIsFile(t, u);
    HolderIsFile(t, v);
    if t[u].Link? && t[v].Link? && Holder(t, u) == Holder(t, v) {
      FinalsDiffer(t[u].target, |Pointing(t, t[u].target)|, t[v].target, |Pointing(t, t[v].target)|);
    }
  }

  lemma WrittenTree(t: Tree, u: string, c: Content)
    requires Consistent(t) && u in t && !IsL2s(u)
    ensures Written(t, u, c) == t[Holder(t, u) := Regular(c)]
  {
    HolderIsFile(t, u);
    if t[u].Link? {
      LinkedLookup(t, u);
    }
  }

  lemma ContentCounted(t: Tree, x: string, c: Content, i: string)
    requires Counted(t, i, 0) && x in t && t[x].Regular?
    ensures Counted(t[x := Regular(c)], i, 0)
  {
    var t', n := t[x := Regular(c)], |Pointing(t, i)|;
    assert Pointing(t', i) == Pointing(t, i);
    TellsCounted(t', i, n, 0);
  }

  lemma ContentKeeps(t: Tree, x: string, c: Content)
    requires Consistent(t) && x in t && t[x].Regular?
    ensures Consistent(t[x := Regular(c)])
  {
    var t' := t[x := Regular(c)];
    forall i | i in t' && IsL2s(i) && t'[i].Link? ensures Counted(t', i, 0) {
      CountedAt(t, "", 0, i);
      ContentCounted(t, x, c, i);
    }
    forall y | y in t' ensures Placed(t', y) {
      PlacedAt(t, y);
    }
  }

  lemma WrittenLookup(t: Tree, u: string, c: Content, v: string)
    requires Consistent(t) && u in t && !IsL2s(u) && v in t && !IsL2s(v)
    ensures var t' := t[Holder(t, u) := Regular(c)];
            && v in t' && Ident(t', v) == Ident(t, v)
            && Lookup(t', v) == if Holder(t, v) == Holder(t, u) then Some(c) else Lookup(t, v)
  {
    HolderIsFile(t, u);
    HolderIsFile(t, v);
    if t[v].Link? {
      LinkedLookup(t, v);
    }
  }

  /** Writing to a name writes to all the names of its file, and to no other. */
  lemma WriteKeeps(t: Tree, h: Hard, u: string, c: Content)
    requires Keeps(t, h) && u in t && !IsL2s(u)
    ensures Keeps(Written(t, u, c), HardWritten(h, u, c))
  {
    var t', h' := t[Holder(t, u) := Regular(c)], HardWritten(h, u, c);
    WrittenTree(t, u, c);
    HolderIsFile(t, u);
    ContentKeeps(t, Holder(t, u), c);
    NamesKnown(t, h);
    forall v | v in h.names ensures Shows(t', h', v) && Ident(t', v) == Ident(t, v) {
      ShownAt(t, h, v);
      TogetherAt(t, h, u, v);
      HolderIsIdent(t, u, v);
      WrittenLookup(t, u, c, v);
    }
    RenamedFiles(t, h, t', h', u, u, u, u);
  }

  lemma CreatedShows(t: Tree, h: Hard, u: string, c: Content, id: nat, v: string)
    requires Keeps(t, h) && u !in t && !IsL2s(u) && id !in h.contents && v in h.names
    ensures v != u && Shows(t[u := Regular(c)], HardCreated(h, u, c, id), v)
    ensures h.names[v] != id && Ident(t[u := Regular(c)], v) == Ident(t, v) && Ident(t, v) != u
  {
    ShownAt(t, h, v);
    HolderIsFile(t, v);
    if t[v].Link? {
      LinkedLookup(t, v);
    }
  }

  lemma CreateKeeps(t: Tree, h: Hard, u: string, c: Content, id: nat)
    requires Keeps(t, h) && u !in t && !IsL2s(u) && id !in h.contents
    ensures Keeps(t[u := Regular(c)], HardCreated(h, u, c, id))
  {
    var t', h' := t[u := Regular(c)], HardCreated(h, u, c, id);
    AddRegular(t, u, Regular(c));
    NamesKnown(t, h);
    forall v | v in h'.names ensures Shows(t', h', v) {
      if v != u {
        CreatedShows(t, h, u, c, id, v);
      }
    }
    forall v, w | v in h'.names && w in h'.names ensures Together(t', h', v, w) {
      if v != u {
        CreatedShows(t, h, u, c, id, v);
      }
      if w != u {
        CreatedShows(t, h, u, c, id, w);
      }
      if v != u && w != u {
        TogetherAt(t, h, v, w);
      }
    }
  }

  // ----- Runs -----

  /** What the tracees ask for; `refused` and `granted` are what the host says, for a new name and for
      an old one. */
  datatype Op =
    | OpLink(source: string, dest: string, refused: bool)
    | OpUnlink(name: string, granted: bool)
    | OpRename(source: string, dest: string, granted: bool)
    | OpWrite(name: string, content: Content)
    | OpCreate(name: string, content: Content, id: nat)

  function Step(t: Tree, op: Op, l2sDirectory: string): Effect {
    match op
    case OpLink(source, dest, refused) => Linked(t, source, dest, l2sDirectory, refused)
    case OpUnlink(name, granted) => Unlinked(t, name, granted)
    case OpRename(source, dest, granted) => Renamed(t, source, dest, granted)
    case OpWrite(name, content) => Effect(0, Written(t, name, content))
    case OpCreate(name, content, _) => Effect(0, t[name := Regular(content)])
  }

  /** What a file system with hard links does, when the operation succeeds. */
  function HardStep(h: Hard, op: Op, status: int): Hard {
    if status != 0 then h
    else
      match op
      case OpLink(source, dest, _) => HardLinked(h, source, dest)
      case OpUnlink(name, _) => HardUnlinked(h, name)
      case OpRename(source, dest, _) => HardRenamed(h, source, dest)
      case OpWrite(name, content) => HardWritten(h, name, content)
      case OpCreate(name, content, id) => HardCreated(h, name, content, id)
  }

  /** What the tracees and the host may do: only plain names are linked, less than 9999 times and as
      long as there are slots; the names of an emulated file that an operation gives up really go
      away; no name of a file is renamed to another one of the same file. */
  predicate Orderly(t: Tree, h: Hard, op: Op, l2sDirectory: string) {
    match op
    case OpLink(source, dest, _) =>
      !IsL2s(source) && !IsL2s(dest) && PlainName(source) && Linkable(t, source, l2sDirectory)
    case OpUnlink(name, granted) =>
      !IsL2s(name) && (name in t && t[name].Link? ==> granted)
    case OpRename(source, dest, granted) =>
      && !IsL2s(source) && !IsL2s(dest)
      && (dest in t && t[dest].Link? ==> granted && source in t && t[source] != t[dest])
    case OpWrite(name, _) => !IsL2s(name) && name in t
    case OpCreate(name, _, id) => !IsL2s(name) && name !in t && id !in h.contents
  }

  lemma StepKeeps(t: Tree, h: Hard, op: Op, l2sDirectory: string)
    requires Keeps(t, h) && Dotless(t) && Orderly(t, h, op, l2sDirectory)
    ensures var r := Step(t, op, l2sDirectory); Keeps(r.tree, HardStep(h, op, r.status)) && Dotless(r.tree)
  {
    match op
    case OpLink(source, dest, refused) => LinkStep(t, h, source, dest, refused, l2sDirectory);
    case OpUnlink(name, granted) =>
      DotlessUnlink(t, name, granted);
      UnlinkKeeps(t, h, name, granted);
      UnlinkDotless(t, name, granted);
    case OpRename(source, dest, granted) => RenameStep(t, h, source, dest, granted);
    case OpWrite(name, content) =>
      WriteKeeps(t, h, name, content);
      WrittenTree(t, name, content);
      NamesAddRegular(t, Holder(t, name), content);
    case OpCreate(name, content, id) =>
      CreateKeeps(t, h, name, content, id);
      NamesAddRegular(t, name, content);
  }

  /** Whether a file system with hard links grants an operation that the host does. */
  predicate HardGrants(h: Hard, op: Op) {
    match op
    case OpLink(source, dest, refused) => LinkAnswer(h, source, dest, refused) == 0
    case OpUnlink(name, granted) => granted && name in h.names
    case OpRename(source, _, granted) => granted && source in h.names
    case OpWrite(_, _) => true
    case OpCreate(_, _, _) => true
  }

  /** An orderly operation succeeds exactly when it would with hard links, but for a link of a file whose
      name is too long. */
  lemma StepAnswers(t: Tree, h: Hard, op: Op, l2sDirectory: string)
    requires Keeps(t, h) && Orderly(t, h, op, l2sDirectory)
    ensures Step(t, op, l2sDirectory).status == 0 <==>
            HardGrants(h, op) && (op.OpLink? && op.source in t && t[op.source].Regular? ==> !TooLong(op.source, l2sDirectory))
  {
    match op
    case OpLink(source, dest, refused) =>
      LinkAnswers(t, h, source, dest, l2sDirectory, refused);
      SameNames(t, h, source);
    case OpUnlink(name, granted) => UnlinkAnswers(t, h, name, granted);
    case OpRename(source, dest, granted) => RenameAnswers(t, h, source, dest, granted);
    case _ =>
  }

  lemma LinkStep(t: Tree, h: Hard, source: string, dest: string, refused: bool, l2sDirectory: string)
    requires Keeps(t, h) && Dotless(t) && Orderly(t, h, OpLink(source, dest, refused), l2sDirectory)
    ensures var r := Linked(t, source, dest, l2sDirectory, refused);
            Keeps(r.tree, AfterLink(h, source, dest, r.status)) && Dotless(r.tree)
  {
    DotlessLink(t, source, dest, l2sDirectory, refused);
    LinkKeeps(t, h, source, dest, l2sDirectory, refused);
    if source in t {
      if t[source].Link? {
        LinkAgainDotless(t, h, source, dest, l2sDirectory, refused);
      } else {
        LinkFirstDotless(t, h, source, dest, l2sDirectory, refused);
      }
    }
  }

  lemma RenameStep(t: Tree, h: Hard, source: string, dest: string, granted: bool)
    requires Keeps(t, h) && Dotless(t) && Orderly(t, h, OpRename(source, dest, granted), "")
    ensures var r := Renamed(t, source, dest, granted);
            Keeps(r.tree, AfterRename(h, source, dest, r.status)) && Dotless(r.tree)
  {
    DotlessUnlink(t, dest, granted && source in t && (dest in t ==> t[source] != t[dest]));
    RenameKeeps(t, h, source, dest, granted);
    RenameDotless(t, source, dest, granted);
  }

  lemma NamesAddRegular(t: Tree, x: string, c: Content)
    requires Dotless(t)
    ensures Dotless(t[x := Regular(c)])
  {
    forall i | i in t[x := Regular(c)] && IsL2s(i) && t[x := Regular(c)][i].Link? ensures !DottedSlot(i) {
      assert i !in Dotted(t);
    }
  }

  function Run(t: Tree, ops: seq<Op>, l2sDirectory: string): Tree
    decreases |ops|
  {
    if ops == [] then t else Run(Step(t, ops[0], l2sDirectory).tree, ops[1..], l2sDirectory)
  }

  function HardRun(t: Tree, h: Hard, ops: seq<Op>, l2sDirectory: string): Hard
    decreases |ops|
  {
    if ops == [] then h
    else
      var r := Step(t, ops[0], l2sDirectory);
      HardRun(r.tree, HardStep(h, ops[0], r.status), ops[1..], l2sDirectory)
  }

  predicate OrderlyRun(t: Tree, h: Hard, ops: seq<Op>, l2sDirectory: string)
    decreases |ops|
  {
    ops != [] ==>
      && Orderly(t, h, ops[0], l2sDirectory)
      && var r := Step(t, ops[0], l2sDirectory);
         OrderlyRun(r.tree, HardStep(h, ops[0], r.status), ops[1..], l2sDirectory)
  }

  /** After any orderly run the tree is consistent, and its tracees see what they would with hard links. */
  lemma {:induction false} RunKeeps(t: Tree, h: Hard, ops: seq<Op>, l2sDirectory: string)
    requires Keeps(t, h) && Dotless(t) && OrderlyRun(t, h, ops, l2sDirectory)
    ensures Keeps(Run(t, ops, l2sDirectory), HardRun(t, h, ops, l2sDirectory))
    decreases |ops|
  {
    if ops != [] {
      StepKeeps(t, h, ops[0], l2sDirectory);
      var r := Step(t, ops[0], l2sDirectory);
      RunKeeps(r.tree, HardStep(h, ops[0], r.status), ops[1..], l2sDirectory);
    }
  }

  /** In particular from an empty tree, every count is the number of names. */
  lemma {:induction false} RunCounts(ops: seq<Op>, l2sDirectory: string, u: string)
    requires OrderlyRun(map[], Hard(map[], map[]), ops, l2sDirectory)
    requires u in Run(map[], ops, l2sDirectory) && !IsL2s(u)
    ensures var h := HardRun(map[], Hard(map[], map[]), ops, l2sDirectory);
            && u in h.names && h.names[u] in h.contents
            && Lookup(Run(map[], ops, l2sDirectory), u) == Some(h.contents[h.names[u]])
            && Nlink(Run(map[], ops, l2sDirectory), u) == |Siblings(h, u)|
  {
    EmptyKeeps();
    RunKeeps(map[], Hard(map[], map[]), ops, l2sDirectory);
    var t, h := Run(map[], ops, l2sDirectory), HardRun(map[], Hard(map[], map[]), ops, l2sDirectory);
    ShownAt(t, h, u);
    NlinkIsNames(t, h, u);
  }

  lemma EmptyKeeps()
    ensures Keeps(map[], Hard(map[], map[])) && Dotless(map[])
  {
  }
}
