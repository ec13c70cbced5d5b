/** Emulated hard links (src/extension/link2symlink/link2symlink.c): a linked file is renamed to a
    "final" name that ends with its number of names, an "intermediate" symbolic link points to it,
    and each of its names is a symbolic link to the intermediate. */
module Link2Symlink {
  import opened Common

  const PREFIX := ".l2s."
  const PATH_MAX: nat := 4096
  const SLOTS: nat := 1000
  const MAX_COUNT: nat := 9999

  // ----- Names -----

  function NameStart(s: string): (n: nat)
    ensures n <= |s|
  {
    if s == "" then 0 else if s[|s| - 1] == '/' then |s| else NameStart(s[..|s| - 1])
  }

  /** PREFIX is at position `n`. */
  predicate PrefixAt(s: string, n: nat) {
    |s| >= n + 5 && s[n] == '.' && s[n + 1] == 'l' && s[n + 2] == '2' && s[n + 3] == 's' && s[n + 4] == '.'
  }

  /** The last component of a path names a file of this extension. */
  predicate IsL2s(s: string) {
    PrefixAt(s, NameStart(s))
  }

  lemma {:induction false} NameStartAppend(s: string, t: string)
    requires '/' !in t
    ensures NameStart(s + t) == NameStart(s)
    decreases |t|
  {
    if t == "" {
      assert s + t == s;
    } else {
      var front := t[..|t| - 1];
      assert (s + t)[..|s + t| - 1] == s + front;
      assert (s + t)[|s + t| - 1] == t[|t| - 1];
      NameStartAppend(s, front);
    }
  }

  lemma L2sAppend(s: string, t: string)
    requires IsL2s(s) && '/' !in t
    ensures IsL2s(s + t)
  {
    NameStartAppend(s, t);
  }

  // ----- Numbers in names -----

  function Digit(d: nat): (c: char)
    requires d < 10
    ensures c != '/' && c != '.'
  {
    (48 + d) as char
  }

  function DigitValue(c: char): (d: nat)
    requires IsDigit(c)
    ensures d < 10
  {
    c as nat - 48
  }

  function Decimal(n: nat): (s: string)
    ensures |s| >= 1
    ensures n >= 10 ==> |s| >= 2
    ensures n >= 100 ==> |s| >= 3
    ensures n >= 1000 ==> |s| >= 4
    ensures n >= 10000 ==> |s| >= 5
  {
    if n < 10 then [Digit(n)] else Decimal(n / 10) + [Digit(n % 10)]
  }

  /** "%04d" */
  function Padded(n: nat): (s: string)
    ensures |s| == 4 <==> n < 10000
  {
    if n < 10000 then [Digit(n / 1000), Digit(n / 100 % 10), Digit(n / 10 % 10), Digit(n % 10)] else Decimal(n)
  }

  lemma PaddedHasNoSlash(n: nat)
    requires n < 10000
    ensures '/' !in Padded(n)
  {
  }

  predicate IsDigit(c: char) {
    '0' <= c <= '9'
  }

  predicate HasSuffix(f: string) {
    |f| >= 5 && IsDigit(f[|f| - 4]) && IsDigit(f[|f| - 3]) && IsDigit(f[|f| - 2]) && IsDigit(f[|f| - 1])
  }

  /** The number of names a final name tells, atoi() of its last four characters; other names are
      not made by the code. */
  function Suffix(f: string): nat {
    if !HasSuffix(f) then 0
    else 1000 * DigitValue(f[|f| - 4]) + 100 * DigitValue(f[|f| - 3]) + 10 * DigitValue(f[|f| - 2]) + DigitValue(f[|f| - 1])
  }

  lemma SuffixOfPadded(s: string, n: nat)
    requires n < 10000 && |s| >= 1
    ensures HasSuffix(s + Padded(n)) && Suffix(s + Padded(n)) == n
  {
    var a, b, c := n / 10, n / 100, n / 1000;
    assert b == a / 10 && c == b / 10;
  }

  /** The name of the intermediate link number `k`, and of the final file behind an intermediate
      link when it has `n` names. */
  function Slot(base: string, k: nat): string {
    base + Padded(k)
  }

  function Final(i: string, n: nat): string {
    i + "." + Padded(n)
  }

  function Stem(f: string): string
    requires |f| >= 5
  {
    f[..|f| - 5]
  }

  /** Same final name but for the count. */
  function WithCount(f: string, n: nat): string {
    (if |f| < 4 then "" else f[..|f| - 4]) + Padded(n)
  }

  lemma FinalParts(i: string, n: nat)
    requires n < 10000
    ensures var f := Final(i, n);
            && HasSuffix(f) && Suffix(f) == n && Stem(f) == i && |f| == |i| + 5 && f[|f| - 5] == '.'
    ensures forall m: nat :: WithCount(Final(i, n), m) == Final(i, m)
    ensures IsL2s(i) ==> IsL2s(Final(i, n))
  {
    var f := Final(i, n);
    SuffixOfPadded(i + ".", n);
    assert f[..|f| - 4] == i + ".";
    if IsL2s(i) {
      PaddedHasNoSlash(n);
      L2sAppend(i, "." + Padded(n));
      assert i + ("." + Padded(n)) == f;
    }
  }

  // ----- The host file tree -----

  type Content = seq<int>
  datatype Entry = Regular(content: Content) | Link(target: string)
  type Tree = map<string, Entry>

  ghost function Pointing(t: Tree, i: string): set<string> {
    set u | u in t && !IsL2s(u) && t[u] == Link(i)
  }

  ghost predicate PointsTo(t: Tree, i: string, f: string) {
    i in t && t[i] == Link(f) && f in t && t[f].Regular?
  }

  /** The intermediate link `i` points to a final file that tells `n` names. */
  ghost predicate Tells(t: Tree, i: string, n: int) {
    1 <= n <= MAX_COUNT && PointsTo(t, i, Final(i, n))
  }

  /** It tells how many names point to it, up to `off`. */
  ghost predicate Counted(t: Tree, i: string, off: int) {
    Tells(t, i, |Pointing(t, i)| + off)
  }

  /** A final file is behind its intermediate link. */
  ghost predicate Behind(t: Tree, f: string) {
    HasSuffix(f) && IsL2s(Stem(f)) && Stem(f) in t && t[Stem(f)] == Link(f)
  }

  /** A linked name points to an intermediate link. */
  ghost predicate Named(t: Tree, u: string)
    requires u in t && t[u].Link?
  {
    IsL2s(t[u].target) && t[u].target in t && t[t[u].target].Link?
  }

  ghost predicate Placed(t: Tree, x: string)
    requires x in t
  {
    if IsL2s(x) then t[x].Regular? ==> Behind(t, x) else t[x].Link? ==> Named(t, x)
  }

  // Sets of what is wrong, rather than quantifiers over what is right, keep the proofs small.

  ghost function Misplaced(t: Tree): set<string> {
    set x | x in t && !Placed(t, x)
  }

  ghost predicate Structured(t: Tree) {
    Misplaced(t) == {}
  }

  ghost function Miscounted(t: Tree, j: string, off: int): set<string> {
    set i | i in t && IsL2s(i) && t[i].Link? && !Counted(t, i, if i == j then off else 0)
  }

  /** Every intermediate link counts its names, but for `j` which is `off` by some. */
  ghost predicate CountedBut(t: Tree, j: string, off: int) {
    Miscounted(t, j, off) == {} && Structured(t)
  }

  lemma PlacedAt(t: Tree, x: string)
    requires Structured(t) && x in t
    ensures Placed(t, x)
  {
    assert x !in Misplaced(t);
  }

  lemma CountedAt(t: Tree, j: string, off: int, i: string)
    requires CountedBut(t, j, off) && i in t && IsL2s(i) && t[i].Link?
    ensures Counted(t, i, if i == j then off else 0)
  {
    assert i !in Miscounted(t, j, off);
  }

  ghost predicate Consistent(t: Tree) {
    CountedBut(t, "", 0)
  }

  // ----- Real hard links, for comparison -----

  datatype Hard = Hard(names: map<string, nat>, contents: map<nat, Content>)

  function Ident(t: Tree, u: string): string
    requires u in t
  {
    if t[u].Link? then t[u].target else u
  }

  /** The content of a name, as translated_path finds it. */
  function Lookup(t: Tree, u: string): Option<Content> {
    if u !in t then None
    else
      match t[u]
      case Regular(c) => Some(c)
      case Link(i) =>
        if i in t && t[i].Link? && t[i].target in t && t[t[i].target].Regular? then Some(t[t[i].target].content) else None
  }

  ghost predicate Shows(t: Tree, h: Hard, u: string) {
    u in t && !IsL2s(u) && u in h.names && h.names[u] in h.contents && Lookup(t, u) == Some(h.contents[h.names[u]])
  }

  /** Two names are those of one file in the tree if and only if they are in `h`. */
  ghost predicate Together(t: Tree, h: Hard, u: string, v: string)
    requires u in h.names && v in h.names
  {
    u in t && v in t && (Ident(t, u) == Ident(t, v) <==> h.names[u] == h.names[v])
  }

  ghost function MixedUp(t: Tree, h: Hard): set<(string, string)> {
    set u, v | u in h.names && v in h.names && !Together(t, h, u, v) :: (u, v)
  }

  ghost predicate SameFiles(t: Tree, h: Hard) {
    MixedUp(t, h) == {}
  }

  ghost function Unknown(t: Tree, h: Hard): set<string> {
    set u | u in t && !IsL2s(u) && u !in h.names
  }

  ghost function Misshown(t: Tree, h: Hard): set<string> {
    set u | u in h.names && !Shows(t, h, u)
  }

  /** The tree shows its tracees what `h` would: the same names, the same contents, and the same
      names of the same files. */
  ghost predicate Represents(t: Tree, h: Hard) {
    Unknown(t, h) == {} && Misshown(t, h) == {} && SameFiles(t, h)
  }

  lemma ShownAt(t: Tree, h: Hard, u: string)
    requires Represents(t, h) && (u in h.names || (u in t && !IsL2s(u)))
    ensures Shows(t, h, u)
  {
    assert u !in Unknown(t, h) && u !in Misshown(t, h);
  }

  lemma TogetherAt(t: Tree, h: Hard, u: string, v: string)
    requires SameFiles(t, h) && u in h.names && v in h.names
    ensures Together(t, h, u, v)
  {
    assert (u, v) !in MixedUp(t, h);
  }

  // ----- Renaming the final file -----

  /** Rename the final file `f` behind `i` to `f'`, and point `i` to it again. */
  function Replaced(t: Tree, i: string, f: string, f': string): Tree
    requires f in t
  {
    (t - {f})[f' := t[f]][i := Link(f')]
  }

  lemma ReplacedNames(t: Tree, j: string, f: string, f': string, u: string)
    requires f in t && f != j && f' != j && f != f'
    ensures var t' := Replaced(t, j, f, f');
            && (u != f && u != f' && u != j ==> (u in t' <==> u in t) && (u in t ==> t'[u] == t[u]))
            && f !in t' && f' in t' && t'[f'] == t[f] && j in t' && t'[j] == Link(f')
  {
  }

  lemma ReplacedPair(t: Tree, j: string, f: string, f': string, i: string, g: string)
    requires PointsTo(t, j, f) && PointsTo(t, i, g) && f' !in t && i != j && g != f
    ensures PointsTo(Replaced(t, j, f, f'), i, g) && Replaced(t, j, f, f')[g] == t[g]
  {
    ReplacedNames(t, j, f, f', i);
    ReplacedNames(t, j, f, f', g);
  }

  lemma FinalsDiffer(i: string, n: nat, j: string, m: nat)
    requires n < 10000 && m < 10000 && Final(i, n) == Final(j, m)
    ensures i == j && n == m
  {
    FinalParts(i, n);
    FinalParts(j, m);
  }

  lemma FinalsOfOthers(i: string, n: nat, j: string, m: nat)
    requires n < 10000 && m < 10000 && i != j
    ensures Final(i, n) != Final(j, m)
  {
    if Final(i, n) == Final(j, m) {
      FinalsDiffer(i, n, j, m);
    }
  }

  lemma SamePointing(t: Tree, t': Tree, i: string)
    requires forall u :: !IsL2s(u) ==> (u in t <==> u in t') && (u in t ==> t'[u] == t[u])
    ensures Pointing(t', i) == Pointing(t, i)
  {
  }

  /** What the two names of the final file are, when `j` goes from one count to another. */
  ghost predicate Recounts(t: Tree, j: string, off: int, n: nat, f: string, f': string) {
    && IsL2s(j) && IsL2s(f) && IsL2s(f') && 1 <= n <= MAX_COUNT && PointsTo(t, j, f) && f' !in t
    && 0 <= |Pointing(t, j)| + off <= MAX_COUNT && f == Final(j, |Pointing(t, j)| + off) && f' == Final(j, n)
    && HasSuffix(f') && Stem(f') == j
  }

  lemma RecountsAt(t: Tree, j: string, off: int, n: nat)
    requires CountedBut(t, j, off) && j in t && IsL2s(j) && t[j].Link? && 1 <= n <= MAX_COUNT && Final(j, n) !in t
    ensures Recounts(t, j, off, n, t[j].target, Final(j, n))
  {
    CountedAt(t, j, off, j);
    FinalParts(j, |Pointing(t, j)| + off);
    FinalParts(j, n);
  }

  /** Another intermediate link and its final file are left alone. */
  lemma ReplacedOther(t: Tree, j: string, off: int, n: nat, f: string, f': string, i: string)
    requires CountedBut(t, j, off) && Recounts(t, j, off, n, f, f')
    requires i in t && IsL2s(i) && t[i].Link? && i != j
    ensures Tells(Replaced(t, j, f, f'), i, |Pointing(t, i)|)
    ensures t[i].target in t && t[t[i].target].Regular? && Replaced(t, j, f, f')[t[i].target] == t[t[i].target]
  {
    CountedAt(t, j, off, i);
    var m := |Pointing(t, i)|;
    FinalsOfOthers(i, m, j, |Pointing(t, j)| + off);
    ReplacedPair(t, j, f, f', i, Final(i, m));
  }

  lemma ReplacedPointing(t: Tree, j: string, f: string, f': string, i: string)
    requires f in t && IsL2s(f) && IsL2s(f') && IsL2s(j) && f != j && f' != j && f != f'
    ensures Pointing(Replaced(t, j, f, f'), i) == Pointing(t, i)
  {
    var t' := Replaced(t, j, f, f');
    forall u | !IsL2s(u) ensures (u in t <==> u in t') && (u in t ==> t'[u] == t[u]) {
      ReplacedNames(t, j, f, f', u);
    }
    SamePointing(t, t', i);
  }

  lemma ReplacedSelf(t: Tree, j: string, off: int, n: nat, f: string, f': string, off': int)
    requires Recounts(t, j, off, n, f, f') && off' == n - |Pointing(t, j)|
    ensures Counted(Replaced(t, j, f, f'), j, off')
  {
    var t' := Replaced(t, j, f, f');
    ReplacedPointing(t, j, f, f', j);
    ReplacedNames(t, j, f, f', j);
    TellsCounted(t', j, n, off');
  }

  lemma ReplacedCounted(t: Tree, j: string, off: int, n: nat, f: string, f': string, i: string)
    requires CountedBut(t, j, off) && Recounts(t, j, off, n, f, f') && i != j
    requires var t' := Replaced(t, j, f, f'); i in t' && IsL2s(i) && t'[i].Link?
    ensures Counted(Replaced(t, j, f, f'), i, 0)
  {
    var t' := Replaced(t, j, f, f');
    ReplacedPointing(t, j, f, f', i);
    ReplacedNames(t, j, f, f', i);
    ReplacedOther(t, j, off, n, f, f', i);
    TellsCounted(t', i, |Pointing(t, i)|, 0);
  }

  lemma TellsCounted(t: Tree, i: string, n: int, off: int)
    requires Tells(t, i, n) && n == |Pointing(t, i)| + off
    ensures Counted(t, i, off)
  {
  }

  lemma ReplacedStructured(t: Tree, j: string, off: int, n: nat, f: string, f': string)
    requires Structured(t) && Recounts(t, j, off, n, f, f')
    ensures Structured(Replaced(t, j, f, f'))
  {
    var t' := Replaced(t, j, f, f');
    forall x | x in t' ensures Placed(t', x) {
      ReplacedPlaced(t, j, off, n, f, f', x);
    }
  }

  lemma ReplacedPlaced(t: Tree, j: string, off: int, n: nat, f: string, f': string, x: string)
    requires Structured(t) && Recounts(t, j, off, n, f, f') && x in Replaced(t, j, f, f')
    ensures Placed(Replaced(t, j, f, f'), x)
  {
    ReplacedNames(t, j, f, f', x);
    if x != f' && x != j {
      PlacedAt(t, x);
      if IsL2s(x) {
        if t[x].Regular? {
          ReplacedNames(t, j, f, f', Stem(x));
        }
      } else if t[x].Link? {
        ReplacedNames(t, j, f, f', t[x].target);
      }
    }
  }

  /** Changing the count of `j` changes nothing else. */
  lemma RecountKeeps(t: Tree, j: string, off: int, n: nat, f: string, f': string, off': int)
    requires CountedBut(t, j, off) && Recounts(t, j, off, n, f, f') && off' == n - |Pointing(t, j)|
    ensures CountedBut(Replaced(t, j, f, f'), j, off')
  {
    var t' := Replaced(t, j, f, f');
    forall i | i in t' && IsL2s(i) && t'[i].Link? ensures Counted(t', i, if i == j then off' else 0) {
      if i == j {
        ReplacedSelf(t, j, off, n, f, f', off');
      } else {
        ReplacedCounted(t, j, off, n, f, f', i);
      }
    }
    ReplacedStructured(t, j, off, n, f, f');
  }

  lemma ReplacedLookup(t: Tree, j: string, off: int, n: nat, f: string, f': string, u: string)
    requires CountedBut(t, j, off) && Recounts(t, j, off, n, f, f') && !IsL2s(u)
    ensures var t' := Replaced(t, j, f, f');
            (u in t <==> u in t') && (u in t ==> t'[u] == t[u]) && Lookup(t', u) == Lookup(t, u)
  {
    ReplacedNames(t, j, f, f', u);
    if u in t && t[u].Link? {
      var i := t[u].target;
      PlacedAt(t, u);
      if i == j {
        ReplacedNames(t, j, f, f', j);
      } else {
        ReplacedOther(t, j, off, n, f, f', i);
      }
    }
  }

  /** ... in particular not for the tracees. */
  lemma RecountRepresents(t: Tree, j: string, off: int, n: nat, f: string, f': string, h: Hard)
    requires CountedBut(t, j, off) && Recounts(t, j, off, n, f, f') && Represents(t, h)
    ensures Represents(Replaced(t, j, f, f'), h)
  {
    var t' := Replaced(t, j, f, f');
    forall u | !IsL2s(u) ensures (u in t <==> u in t') && (u in t ==> t'[u] == t[u]) && Lookup(t', u) == Lookup(t, u) {
      ReplacedLookup(t, j, off, n, f, f', u);
    }
    SameView(t, t', h);
  }

  lemma SameView(t: Tree, t': Tree, h: Hard)
    requires Represents(t, h)
    requires forall u :: !IsL2s(u) ==> (u in t <==> u in t') && (u in t ==> t'[u] == t[u]) && Lookup(t', u) == Lookup(t, u)
    ensures Represents(t', h)
  {
    forall u | u in h.names ensures Shows(t', h, u) {
      ShownAt(t, h, u);
    }
    forall u, v | u in h.names && v in h.names ensures Together(t', h, u, v) {
      ShownAt(t, h, u);
      ShownAt(t, h, v);
      TogetherAt(t, h, u, v);
    }
    forall u | u in t' && !IsL2s(u) ensures u in h.names {
      ShownAt(t, h, u);
    }
  }

  // ----- The operations -----

  const ENOENT: int := 2
  const EEXIST: int := 17
  const ENAMETOOLONG: int := 36

  /** The status of an operation and the tree it leaves. */
  datatype Effect = Effect(status: int, tree: Tree)

  /** access(2) follows links. */
  predicate Accessible(t: Tree, p: string) {
    p in t && (t[p].Regular? || t[p].target in t)
  }

  /** The intermediate link a name points to. */
  function IntermediateOf(t: Tree, u: string): Option<string> {
    if u in t && t[u].Link? && IsL2s(t[u].target) then Some(t[u].target) else None
  }

  /** Rename the final file `f` behind `i` to `f'`, remove `i` and make it again. */
  function Relinked(t: Tree, i: string, f: string, f': string): Effect {
    if f !in t then Effect(-1, t)
    else
      var moved := (t - {f})[f' := t[f]];
      if i !in moved then Effect(-1, moved) else Effect(0, Replaced(t, i, f, f'))
  }

  function Decremented(t: Tree, u: string): Effect {
    var i := IntermediateOf(t, u);
    if i.None? || i.value !in t || t[i.value].Regular? then Effect(0, t)
    else
      var f := t[i.value].target;
      var n := Suffix(f) as int - 1;
      if n > 0 then Relinked(t, i.value, f, WithCount(f, n))
      else if f !in t - {i.value} then Effect(-1, t - {i.value})
      else Effect(0, t - {i.value} - {f})
  }

  function Unlinked(t: Tree, u: string, granted: bool): Effect {
    var d := Decremented(t, u);
    if d.status < 0 then d
    else if granted && u in d.tree then Effect(0, d.tree - {u})
    else Effect(-1, d.tree)
  }

  function Renamed(t: Tree, source: string, dest: string, granted: bool): Effect {
    var d := Decremented(t, dest);
    if d.status < 0 then d
    else if granted && source in d.tree then Effect(0, (d.tree - {source})[dest := d.tree[source]])
    else Effect(-1, d.tree)
  }

  /** The name without number of the intermediate link of a file, beside it or in a directory. */
  function BaseOf(original: string, l2sDirectory: string): string {
    var start := NameStart(original);
    (if l2sDirectory == "" then original[..start]
     else if l2sDirectory[|l2sDirectory| - 1] == '/' then l2sDirectory
     else l2sDirectory + "/") + PREFIX + original[start..]
  }

  predicate TooLong(original: string, l2sDirectory: string) {
    if l2sDirectory == "" then |PREFIX| + |original| + 5 >= PATH_MAX
    else |PREFIX| + |l2sDirectory| + NameStart(original) + 6 >= PATH_MAX
  }

  /** The number of the first free intermediate link, or the last number. */
  function FreeSlot(t: Tree, base: string, k: nat): (r: nat)
    requires 1 <= k < SLOTS
    ensures k <= r < SLOTS
    decreases SLOTS - k
  {
    if Accessible(t, Slot(base, k)) && k + 1 < SLOTS then FreeSlot(t, base, k + 1) else k
  }

  datatype Move = Move(status: int, tree: Tree, intermediate: string)

  /** The first half of move_and_symlink_path. */
  function Moved(t: Tree, u: string, l2sDirectory: string): Move {
    if u !in t then Move(-ENOENT, t, "")
    else if t[u].Link? && IsL2s(t[u].target) then
      var i := t[u].target;
      if i !in t || t[i].Regular? then Move(-1, t, i)
      else
        var r := Relinked(t, i, t[i].target, WithCount(t[i].target, Suffix(t[i].target) + 1));
        Move(r.status, r.tree, i)
    else if t[u].Regular? && TooLong(u, l2sDirectory) then Move(-ENAMETOOLONG, t, "")
    else
      var base := if t[u].Regular? then BaseOf(u, l2sDirectory) else t[u].target;
      var i := Slot(base, FreeSlot(t, base, 1));
      var moved := (t - {u})[Final(i, 2) := t[u]];
      if i in moved then Move(-1, moved, i)
      else if u in moved[i := Link(Final(i, 2))] then Move(-1, moved[i := Link(Final(i, 2))], i)
      else Move(0, moved[i := Link(Final(i, 2))][u := Link(i)], i)
  }

  function Linked(t: Tree, source: string, dest: string, l2sDirectory: string, refused: bool): Effect {
    var m := Moved(t, source, l2sDirectory);
    if m.status < 0 then Effect(m.status, m.tree)
    else if refused || dest in m.tree then Effect(-EEXIST, Decremented(m.tree, source).tree)
    else Effect(0, m.tree[dest := Link(m.intermediate)])
  }

  /** What writing to a name does, once translated_path has followed its links. */
  function Written(t: Tree, u: string, c: Content): Tree {
    var i := IntermediateOf(t, u);
    if i.None? then t[u := Regular(c)]
    else if i.value in t && t[i.value].Link? then t[t[i.value].target := Regular(c)]
    else t
  }

  function HardLinked(h: Hard, source: string, dest: string): Hard {
    if source in h.names && dest !in h.names then h.(names := h.names[dest := h.names[source]]) else h
  }

  function HardUnlinked(h: Hard, u: string): Hard {
    h.(names := h.names - {u})
  }

  /** rename(2) does nothing when both names are those of one file. */
  function HardRenamed(h: Hard, source: string, dest: string): Hard {
    if source in h.names && !(dest in h.names && h.names[dest] == h.names[source])
    then h.(names := (h.names - {source})[dest := h.names[source]])
    else h
  }

  // ----- Effects on the names -----

  lemma {:induction false} AddedPointing(t: Tree, j: string, u: string)
    requires u !in t && !IsL2s(u)
    ensures |Pointing(t[u := Link(j)], j)| == |Pointing(t, j)| + 1
    ensures forall i :: i != j ==> Pointing(t[u := Link(j)], i) == Pointing(t, i)
  {
    assert Pointing(t[u := Link(j)], j) == Pointing(t, j) + {u};
    forall i | i != j ensures Pointing(t[u := Link(j)], i) == Pointing(t, i) {
    }
  }

  lemma AddedCounted(t: Tree, j: string, off: int, u: string, i: string)
    requires Counted(t, i, off) && u !in t && !IsL2s(u)
    ensures Counted(t[u := Link(j)], i, if i == j then off - 1 else off)
  {
    AddedPointing(t, j, u);
    var t', n := t[u := Link(j)], |Pointing(t, i)| + off;
    assert Tells(t', i, n) by {
      assert PointsTo(t', i, Final(i, n));
    }
    TellsCounted(t', i, n, if i == j then off - 1 else off);
  }

  /** A new name makes up for a count that is too high by one. */
  lemma AddName(t: Tree, j: string, off: int, u: string)
    requires CountedBut(t, j, off) && j in t && t[j].Link? && IsL2s(j) && u !in t && !IsL2s(u)
    ensures CountedBut(t[u := Link(j)], j, off - 1)
  {
    var t' := t[u := Link(j)];
    forall i | i in t' && IsL2s(i) && t'[i].Link? ensures Counted(t', i, if i == j then off - 1 else 0) {
      assert i != u && t'[i] == t[i];
      CountedAt(t, j, off, i);
      if i == j {
        AddedCounted(t, j, off, u, j);
      } else {
        AddedCounted(t, j, 0, u, i);
      }
    }
    AddStructured(t, j, u);
  }

  lemma AddStructured(t: Tree, j: string, u: string)
    requires Structured(t) && j in t && t[j].Link? && IsL2s(j) && u !in t && !IsL2s(u)
    ensures Structured(t[u := Link(j)])
  {
    var t' := t[u := Link(j)];
    forall x | x in t' ensures Placed(t', x) {
      if x != u {
        PlacedAt(t, x);
      }
    }
  }

  lemma AddedLookup(t: Tree, j: string, u: string, x: string)
    requires u !in t && x in t && Lookup(t, x).Some?
    ensures var t' := t[u := Link(j)]; t'[x] == t[x] && Lookup(t', x) == Lookup(t, x)
  {
  }

  lemma AddNameRepresents(t: Tree, h: Hard, j: string, u: string, v: string)
    requires Represents(t, h) && v in h.names && v in t && t[v] == Link(j) && u !in t && !IsL2s(u)
    ensures Represents(t[u := Link(j)], HardLinked(h, v, u))
  {
    var t', h' := t[u := Link(j)], HardLinked(h, v, u);
    assert u !in h.names by { if u in h.names { ShownAt(t, h, u); } }
    ShownAt(t, h, v);
    AddedLookup(t, j, u, v);
    forall x | x in h'.names ensures Shows(t', h', x) && Ident(t', x) == Ident(t, if x == u then v else x) {
      if x != u {
        ShownAt(t, h, x);
        AddedLookup(t, j, u, x);
      }
    }
    NamesKnown(t, h);
    RenamedFiles(t, h, t', h', u, v, u, u);
  }

  lemma NamesKnown(t: Tree, h: Hard)
    requires Represents(t, h)
    ensures forall x :: x in h.names ==> x in t && !IsL2s(x)
    ensures forall x :: x in t && !IsL2s(x) ==> x in h.names
  {
    forall x | x in h.names ensures x in t && !IsL2s(x) {
      ShownAt(t, h, x);
    }
    forall x | x in t && !IsL2s(x) ensures x in h.names {
      ShownAt(t, h, x);
    }
  }

  /** If each name is that of the same file as before, and `u` of that of `v`, nothing is mixed up;
      the file `a` may have become `b`, if there was no `b`. */
  lemma RenamedFiles(t: Tree, h: Hard, t': Tree, h': Hard, u: string, v: string, a: string, b: string)
    requires SameFiles(t, h) && v in h.names && forall x :: x in h.names ==> x in t
    requires a == b || forall x :: x in h.names ==> Ident(t, x) != b
    requires forall x :: x in h'.names ==> x in t' && (x != u ==> x in h.names)
    requires forall x :: x in h'.names ==> var i := Ident(t, if x == u then v else x); Ident(t', x) == if i == a then b else i
    requires forall x :: x in h'.names ==> h'.names[x] == h.names[if x == u then v else x]
    ensures SameFiles(t', h')
  {
    forall x, y | x in h'.names && y in h'.names ensures Together(t', h', x, y) {
      TogetherAt(t, h, if x == u then v else x, if y == u then v else y);
    }
  }

  // ----- Removing a name -----

  lemma DroppedPointing(t: Tree, j: string, u: string)
    requires u in t && !IsL2s(u) && t[u] == Link(j)
    ensures |Pointing(t - {u}, j)| == |Pointing(t, j)| - 1
    ensures forall i :: i != j ==> Pointing(t - {u}, i) == Pointing(t, i)
  {
    assert Pointing(t - {u}, j) == Pointing(t, j) - {u};
    forall i | i != j ensures Pointing(t - {u}, i) == Pointing(t, i) {
    }
  }

  lemma DroppedCounted(t: Tree, j: string, off: int, u: string, i: string)
    requires Counted(t, i, off) && u in t && !IsL2s(u) && t[u] == Link(j) && IsL2s(i)
    ensures Counted(t - {u}, i, if i == j then off + 1 else off)
  {
    DroppedPointing(t, j, u);
    var t', n := t - {u}, |Pointing(t, i)| + off;
    FinalParts(i, n);
    assert Tells(t', i, n) by {
      assert PointsTo(t', i, Final(i, n));
    }
    TellsCounted(t', i, n, if i == j then off + 1 else off);
  }

  /** A name less makes up for a count that is too low by one. */
  lemma DropName(t: Tree, j: string, off: int, u: string)
    requires CountedBut(t, j, off) && u in t && !IsL2s(u) && t[u] == Link(j)
    ensures CountedBut(t - {u}, j, off + 1)
  {
    var t' := t - {u};
    forall i | i in t' && IsL2s(i) && t'[i].Link? ensures Counted(t', i, if i == j then off + 1 else 0) {
      CountedAt(t, j, off, i);
      if i == j {
        DroppedCounted(t, j, off, u, j);
      } else {
        DroppedCounted(t, j, 0, u, i);
      }
    }
    DropStructured(t, u);
  }

  lemma DropStructured(t: Tree, u: string)
    requires Structured(t) && u in t && !IsL2s(u)
    ensures Structured(t - {u})
  {
    var t' := t - {u};
    forall x | x in t' ensures Placed(t', x) {
      PlacedAt(t, x);
    }
  }

  lemma DroppedRegular(t: Tree, u: string, i: string)
    requires Counted(t, i, 0) && u in t && !IsL2s(u) && t[u].Regular? && IsL2s(i)
    ensures Counted(t - {u}, i, 0)
  {
    var t', n := t - {u}, |Pointing(t, i)|;
    assert Pointing(t', i) == Pointing(t, i);
    FinalParts(i, n);
    TellsCounted(t', i, n, 0);
  }

  lemma DropRegular(t: Tree, u: string)
    requires Consistent(t) && u in t && !IsL2s(u) && t[u].Regular?
    ensures Consistent(t - {u})
  {
    var t' := t - {u};
    DropStructured(t, u);
    forall i | i in t' && IsL2s(i) && t'[i].Link? ensures Counted(t', i, 0) {
      CountedAt(t, "", 0, i);
      DroppedRegular(t, u, i);
    }
  }

  lemma DroppedLookup(t: Tree, u: string, x: string)
    requires u in t && !IsL2s(u) && x in t && x != u && Lookup(t, x).Some?
    requires t[x].Link? ==> t[x].target != u && t[t[x].target].target != u
    ensures Lookup(t - {u}, x) == Lookup(t, x)
  {
  }

  lemma DroppedShows(t: Tree, h: Hard, j: string, off: int, u: string, x: string)
    requires Shows(t, h, x) && CountedBut(t, j, off) && u in t && !IsL2s(u) && x != u
    ensures Shows(t - {u}, HardUnlinked(h, u), x) && Ident(t - {u}, x) == Ident(t, x)
  {
    if t[x].Link? {
      var i := t[x].target;
      PlacedAt(t, x);
      CountedAt(t, j, off, i);
      FinalParts(i, |Pointing(t, i)| + if i == j then off else 0);
    }
    DroppedLookup(t, u, x);
  }

  lemma DropRepresents(t: Tree, h: Hard, j: string, off: int, u: string)
    requires Represents(t, h) && CountedBut(t, j, off) && u in t && !IsL2s(u)
    ensures Represents(t - {u}, HardUnlinked(h, u))
  {
    var t', h' := t - {u}, HardUnlinked(h, u);
    forall x | x in h'.names ensures Shows(t', h', x) && Ident(t', x) == Ident(t, x) {
      ShownAt(t, h, x);
      DroppedShows(t, h, j, off, u, x);
    }
    NamesKnown(t, h);
    RenamedFiles(t, h, t', h', u, u, u, u);
  }

  // ----- The first link of a file -----

  /** A final file and the intermediate link to it. */
  function WithPair(t: Tree, i: string, e: Entry): Tree {
    t[Final(i, 2) := e][i := Link(Final(i, 2))]
  }

  lemma NewPairCounted(t: Tree, i: string, e: Entry, x: string)
    requires Counted(t, x, 0) && i !in t && Final(i, 2) !in t && IsL2s(i)
    ensures x != i && Counted(WithPair(t, i, e), x, 0)
  {
    var t', n := WithPair(t, i, e), |Pointing(t, x)|;
    NewPairPointing(t, i, e, x);
    assert PointsTo(t', x, Final(x, n));
    TellsCounted(t', x, n, 0);
  }

  lemma NewPairPointing(t: Tree, i: string, e: Entry, x: string)
    requires i !in t && Final(i, 2) !in t && IsL2s(i)
    ensures Pointing(WithPair(t, i, e), x) == Pointing(t, x)
  {
    FinalParts(i, 2);
    SamePointing(t, WithPair(t, i, e), x);
  }

  lemma NobodyPoints(t: Tree, i: string)
    requires Structured(t) && i !in t
    ensures Pointing(t, i) == {}
  {
    forall u | u in t && !IsL2s(u) ensures t[u] != Link(i) {
      PlacedAt(t, u);
    }
  }

  lemma NewPairStructured(t: Tree, i: string, e: Entry)
    requires Structured(t) && i !in t && Final(i, 2) !in t && IsL2s(i) && e.Regular?
    ensures Structured(WithPair(t, i, e))
  {
    var t' := WithPair(t, i, e);
    var g := Final(i, 2);
    FinalParts(i, 2);
    WithPairNames(t, i, g, e);
    forall x | x in t' ensures Placed(t', x) {
      if x != i && x != g {
        PlacedAt(t, x);
      }
    }
  }

  lemma WithPairNames(t: Tree, i: string, g: string, e: Entry)
    requires g == Final(i, 2) && g != i
    ensures var t' := WithPair(t, i, e);
            && g in t' && t'[g] == e && i in t' && t'[i] == Link(g)
            && forall x :: x != i && x != g ==> (x in t' <==> x in t) && (x in t ==> t'[x] == t[x])
  {
  }

  lemma NewPair(t: Tree, i: string, e: Entry)
    requires Consistent(t) && i !in t && Final(i, 2) !in t && IsL2s(i) && e.Regular?
    ensures CountedBut(WithPair(t, i, e), i, 2)
  {
    var t' := WithPair(t, i, e);
    FinalParts(i, 2);
    WithPairNames(t, i, Final(i, 2), e);
    forall x | x in t' && IsL2s(x) && t'[x].Link? ensures Counted(t', x, if x == i then 2 else 0) {
      if x == i {
        NewPairSelf(t, i, e);
      } else {
        CountedAt(t, "", 0, x);
        NewPairCounted(t, i, e, x);
      }
    }
    NewPairStructured(t, i, e);
  }

  lemma NewPairSelf(t: Tree, i: string, e: Entry)
    requires Structured(t) && i !in t && Final(i, 2) !in t && IsL2s(i) && e.Regular?
    ensures Counted(WithPair(t, i, e), i, 2)
  {
    var t' := WithPair(t, i, e);
    NewPairPointing(t, i, e, i);
    NobodyPoints(t, i);
    FinalParts(i, 2);
    WithPairNames(t, i, Final(i, 2), e);
    TellsCounted(t', i, 2, 2);
  }

  /** The tree once a regular file has become the only name of an emulated one. */
  function FirstLinked(t: Tree, u: string, i: string): Tree
    requires u in t
  {
    WithPair(t - {u}, i, t[u])[u := Link(i)]
  }

  /** Where `u` can be converted, with the intermediate link `i`. */
  ghost predicate Convertible(t: Tree, u: string, i: string) {
    u in t && !IsL2s(u) && t[u].Regular? && IsL2s(i) && IsL2s(Final(i, 2)) && i !in t && Final(i, 2) !in t
  }

  lemma FirstLink(t: Tree, u: string, i: string)
    requires Consistent(t) && Convertible(t, u, i)
    ensures CountedBut(FirstLinked(t, u, i), i, 1)
  {
    DropRegular(t, u);
    NewPair(t - {u}, i, t[u]);
    AddName(WithPair(t - {u}, i, t[u]), i, 2, u);
  }

  lemma FirstLinkedNames(t: Tree, u: string, i: string, f: string, x: string)
    requires Convertible(t, u, i) && f == Final(i, 2)
    ensures var t' := FirstLinked(t, u, i);
            && u in t' && t'[u] == Link(i) && i in t' && t'[i] == Link(f) && f in t' && t'[f] == t[u]
            && (x != u && x != i && x != f ==> (x in t' <==> x in t) && (x in t ==> t'[x] == t[x]))
  {
    FinalParts(i, 2);
  }

  lemma FirstLinkShows(t: Tree, h: Hard, u: string, i: string, x: string)
    requires Consistent(t) && Shows(t, h, x) && Convertible(t, u, i)
    ensures Shows(FirstLinked(t, u, i), h, x)
    ensures Ident(FirstLinked(t, u, i), x) == if Ident(t, x) == u then i else Ident(t, x)
    ensures Ident(t, x) != i
  {
    var f := Final(i, 2);
    FirstLinkedNames(t, u, i, f, x);
    if x != u && t[x].Link? {
      LinkedLookup(t, x);
      FirstLinkedNames(t, u, i, f, t[x].target);
      FirstLinkedNames(t, u, i, f, t[t[x].target].target);
    }
  }

  /** Where the content of a linked name is. */
  lemma LinkedLookup(t: Tree, x: string)
    requires Consistent(t) && x in t && !IsL2s(x) && t[x].Link?
    ensures var k := t[x].target;
            && IsL2s(k) && k in t && t[k].Link? && IsL2s(t[k].target) && t[k].target in t && t[t[k].target].Regular?
            && t[k].target == Final(k, |Pointing(t, k)|) && |Pointing(t, k)| <= MAX_COUNT
            && Lookup(t, x) == Some(t[t[k].target].content)
  {
    var k := t[x].target;
    PlacedAt(t, x);
    CountedAt(t, "", 0, k);
    FinalParts(k, |Pointing(t, k)|);
  }

  lemma FirstLinkRepresents(t: Tree, h: Hard, u: string, i: string)
    requires Consistent(t) && Represents(t, h) && Convertible(t, u, i)
    ensures Represents(FirstLinked(t, u, i), h)
  {
    var t' := FirstLinked(t, u, i);
    forall x | x in h.names
      ensures Shows(t', h, x) && Ident(t', x) == (if Ident(t, x) == u then i else Ident(t, x)) && Ident(t, x) != i
    {
      ShownAt(t, h, x);
      FirstLinkShows(t, h, u, i, x);
    }
    FirstLinkNames(t, h, u, i);
    NamesKnown(t, h);
    RenamedFiles(t, h, t', h, u, u, u, i);
  }

  lemma FirstLinkNames(t: Tree, h: Hard, u: string, i: string)
    requires Represents(t, h) && Convertible(t, u, i)
    ensures forall x :: x in FirstLinked(t, u, i) && !IsL2s(x) ==> x in h.names
    ensures u in h.names
  {
    forall x | x in FirstLinked(t, u, i) && !IsL2s(x) ensures x in h.names {
      FirstLinkedNames(t, u, i, Final(i, 2), x);
      ShownAt(t, h, if x == u then u else x);
    }
    ShownAt(t, h, u);
  }

  // ----- The last name of a file -----

  function WithoutPair(t: Tree, i: string, f: string): Tree {
    t - {i} - {f}
  }

  lemma WithoutNames(t: Tree, j: string, f: string, u: string)
    ensures var t' := WithoutPair(t, j, f) - {u};
            && (forall x :: x in t' <==> x in t && x != j && x != f && x != u)
            && (forall x :: x in t' ==> t'[x] == t[x])
  {
  }

  lemma WithoutPointing(t: Tree, j: string, f: string, u: string, x: string)
    requires IsL2s(j) && IsL2s(f) && Pointing(t, j) == {u} && x != j
    ensures Pointing(WithoutPair(t, j, f) - {u}, x) == Pointing(t, x)
  {
    WithoutNames(t, j, f, u);
    assert u in Pointing(t, j);
  }

  lemma LastNameCounted(t: Tree, j: string, u: string, x: string)
    requires Tells(t, j, 1) && Pointing(t, j) == {u} && !IsL2s(u)
    requires Counted(t, x, 0) && x != j && x != Final(j, 1) && IsL2s(x) && IsL2s(j)
    ensures Counted(WithoutPair(t, j, Final(j, 1)) - {u}, x, 0)
  {
    var f, n := Final(j, 1), |Pointing(t, x)|;
    FinalParts(j, 1);
    FinalParts(x, n);
    WithoutPointing(t, j, f, u, x);
    if Final(x, n) == f {
      FinalsDiffer(x, n, j, 1);
    }
    WithoutNames(t, j, f, u);
    TellsCounted(WithoutPair(t, j, f) - {u}, x, n, 0);
  }

  lemma LastNameStructured(t: Tree, j: string, f: string, u: string)
    requires Structured(t) && PointsTo(t, j, f) && Pointing(t, j) == {u} && !IsL2s(u) && IsL2s(j) && IsL2s(f)
    ensures Structured(WithoutPair(t, j, f) - {u})
  {
    var t' := WithoutPair(t, j, f) - {u};
    WithoutNames(t, j, f, u);
    forall x | x in t' ensures Placed(t', x) {
      PlacedAt(t, x);
      assert x !in Pointing(t, j);
    }
  }

  /** With its last name, an emulated file goes away, and nothing else does. */
  lemma LastName(t: Tree, j: string, u: string)
    requires Consistent(t) && Tells(t, j, 1) && Pointing(t, j) == {u} && !IsL2s(u) && IsL2s(j)
    ensures Consistent(WithoutPair(t, j, Final(j, 1)) - {u})
  {
    var t' := WithoutPair(t, j, Final(j, 1)) - {u};
    FinalParts(j, 1);
    LastNameStructured(t, j, Final(j, 1), u);
    WithoutNames(t, j, Final(j, 1), u);
    forall x | x in t' && IsL2s(x) && t'[x].Link? ensures Counted(t', x, 0) {
      CountedAt(t, "", 0, x);
      LastNameCounted(t, j, u, x);
    }
  }

  /** The links and the final file of another name are others. */
  lemma LastNameElsewhere(t: Tree, j: string, u: string, x: string)
    requires Consistent(t) && Tells(t, j, 1) && Pointing(t, j) == {u} && !IsL2s(u) && IsL2s(j)
    requires x in t && !IsL2s(x) && x != u && t[x].Link?
    ensures var k, f := t[x].target, Final(j, 1);
            && k in t && t[k].Link? && k != j && k != f && k != u
            && t[k].target in t && t[k].target != j && t[k].target != f && t[k].target != u
  {
    assert x !in Pointing(t, j);
    LinkedLookup(t, x);
    FinalParts(j, 1);
    var k := t[x].target;
    if t[k].target == Final(j, 1) {
      FinalsDiffer(k, |Pointing(t, k)|, j, 1);
    }
  }

  lemma LastNameShows(t: Tree, h: Hard, j: string, u: string, x: string)
    requires Consistent(t) && Tells(t, j, 1) && Pointing(t, j) == {u} && !IsL2s(u) && IsL2s(j)
    requires Shows(t, h, x) && x != u
    ensures var t' := WithoutPair(t, j, Final(j, 1)) - {u};
            Shows(t', HardUnlinked(h, u), x) && Ident(t', x) == Ident(t, x)
  {
    var f := Final(j, 1);
    if t[x].Link? {
      LastNameElsewhere(t, j, u, x);
    }
    FinalParts(j, 1);
    WithoutNames(t, j, f, u);
    SameLookup(t, WithoutPair(t, j, f) - {u}, x);
  }

  lemma SameLookup(t: Tree, t': Tree, x: string)
    requires x in t && x in t' && t'[x] == t[x]
    requires t[x].Link? ==> var k := t[x].target;
                            k in t && k in t' && t'[k] == t[k] && t[k].Link? && t[k].target in t && t[k].target in t' &&
                            t'[t[k].target] == t[t[k].target]
    ensures Lookup(t', x) == Lookup(t, x) && Ident(t', x) == Ident(t, x)
  {
  }

  lemma LastNameRepresents(t: Tree, h: Hard, j: string, u: string)
    requires Consistent(t) && Tells(t, j, 1) && Pointing(t, j) == {u} && !IsL2s(u) && IsL2s(j) && Represents(t, h)
    ensures Represents(WithoutPair(t, j, Final(j, 1)) - {u}, HardUnlinked(h, u))
  {
    var t', h' := WithoutPair(t, j, Final(j, 1)) - {u}, HardUnlinked(h, u);
    assert u in Pointing(t, j);
    forall x | x in h'.names ensures Shows(t', h', x) && Ident(t', x) == Ident(t, x) {
      ShownAt(t, h, x);
      LastNameShows(t, h, j, u, x);
    }
    NamesKnown(t, h);
    RenamedFiles(t, h, t', h', u, u, u, u);
  }

  // ----- Moving a name -----

  function MovedName(t: Tree, source: string, dest: string): Tree
    requires source in t
  {
    (t - {source})[dest := t[source]]
  }

  lemma MoveRegular(t: Tree, source: string, dest: string)
    requires Consistent(t) && source in t && dest !in t && !IsL2s(source) && !IsL2s(dest) && t[source].Regular?
    ensures Consistent(MovedName(t, source, dest))
  {
    DropRegular(t, source);
    AddRegular(t - {source}, dest, t[source]);
  }

  lemma AddRegular(t: Tree, u: string, e: Entry)
    requires Consistent(t) && u !in t && !IsL2s(u) && e.Regular?
    ensures Consistent(t[u := e])
  {
    var t' := t[u := e];
    forall i | i in t' && IsL2s(i) && t'[i].Link? ensures Counted(t', i, 0) {
      CountedAt(t, "", 0, i);
      AddedRegular(t, u, e, i);
    }
    forall x | x in t' ensures Placed(t', x) {
      if x != u {
        PlacedAt(t, x);
      }
    }
  }

  lemma AddedRegular(t: Tree, u: string, e: Entry, i: string)
    requires Counted(t, i, 0) && u !in t && !IsL2s(u) && e.Regular?
    ensures Counted(t[u := e], i, 0)
  {
    var t', n := t[u := e], |Pointing(t, i)|;
    assert Pointing(t', i) == Pointing(t, i);
    TellsCounted(t', i, n, 0);
  }

  lemma MoveName(t: Tree, source: string, dest: string)
    requires Consistent(t) && source in t && dest !in t && !IsL2s(source) && !IsL2s(dest)
    ensures Consistent(MovedName(t, source, dest))
  {
    if t[source].Regular? {
      MoveRegular(t, source, dest);
    } else {
      var j := t[source].target;
      PlacedAt(t, source);
      ZeroOff(t, j);
      DropName(t, j, 0, source);
      AddName(t - {source}, j, 1, dest);
      ZeroOff(MovedName(t, source, dest), j);
    }
  }

  lemma ZeroOff(t: Tree, j: string)
    ensures CountedBut(t, j, 0) <==> Consistent(t)
  {
  }

  lemma MovedNames(t: Tree, source: string, dest: string)
    requires source in t && dest !in t
    ensures var t' := MovedName(t, source, dest);
            && dest in t' && t'[dest] == t[source]
            && forall x :: x != dest ==> (x in t' <==> x in t && x != source) && (x in t' ==> t'[x] == t[x])
  {
  }

  lemma MovedShows(t: Tree, h: Hard, source: string, dest: string, x: string)
    requires Consistent(t) && Shows(t, h, x) && Shows(t, h, source) && dest !in t && dest !in h.names && !IsL2s(dest)
    ensures var t', h', x' := MovedName(t, source, dest), HardRenamed(h, source, dest), if x == source then dest else x;
            && Shows(t', h', x') && h'.names[x'] == h.names[x]
            && Ident(t', x') == if Ident(t, x) == source then dest else Ident(t, x)
    ensures Ident(t, x) != dest
  {
    MovedNames(t, source, dest);
    if t[x].Link? {
      LinkedLookup(t, x);
    }
  }

  lemma MoveRepresents(t: Tree, h: Hard, source: string, dest: string)
    requires Consistent(t) && Represents(t, h) && source in h.names && source in t && dest !in t && !IsL2s(dest)
    ensures Represents(MovedName(t, source, dest), HardRenamed(h, source, dest))
  {
    var t', h' := MovedName(t, source, dest), HardRenamed(h, source, dest);
    assert dest !in h.names by { if dest in h.names { ShownAt(t, h, dest); } }
    ShownAt(t, h, source);
    forall x | x in h'.names
      ensures var o := if x == dest then source else x;
              && o in h.names && Shows(t', h', x) && h'.names[x] == h.names[o]
              && Ident(t', x) == if Ident(t, o) == source then dest else Ident(t, o)
    {
      ShownAt(t, h, if x == dest then source else x);
      MovedShows(t, h, source, dest, if x == dest then source else x);
    }
    NamesKnown(t, h);
    forall x | x in h.names ensures Ident(t, x) != dest {
      ShownAt(t, h, x);
      MovedShows(t, h, source, dest, x);
    }
    MovedNames(t, source, dest);
    RenamedFiles(t, h, t', h', dest, source, source, dest);
  }
}
