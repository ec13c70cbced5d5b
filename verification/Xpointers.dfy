/** Arrays of pointers such as argv[], fetched from a tracee, edited, and pushed below its stack
    (src/execve/aoxp.c:99-131,213-439, src/tracee/mem.c:299-331,543-579,637-673). */
module Xpointers {
  import opened Common
  import opened TraceeMemory

  const RED_ZONE: nat := 128
  const E2BIG: int := 7
  const ENOMEM: int := 12
  const ARG_MAX: nat := 131072

  /** The bytes of a string before its null byte. */
  type Text = s: seq<Byte> | forall i :: 0 <= i < |s| ==> s[i] != 0

  /** An entry: an address in the tracee, or a string held by the tracer that replaces it. */
  datatype XPointer = XPointer(remote: nat, local: Option<Text>)

  type Entries = seq<XPointer>

  // ---- words --------------------------------------------------------------------------

  function Limit(ws: nat): nat {
    if ws == 0 then 1 else 256 * Limit(ws - 1)
  }

  /** A word in little-endian order; bits above its size are lost. */
  function Encode(w: nat, ws: nat): (s: seq<Byte>)
    ensures |s| == ws
  {
    if ws == 0 then [] else [w % 256] + Encode(w / 256, ws - 1)
  }

  function Decode(s: seq<Byte>): nat {
    if s == [] then 0 else s[0] + 256 * Decode(s[1..])
  }

  lemma {:induction false} DecodeEncode(w: nat, ws: nat)
    requires w < Limit(ws)
    ensures Decode(Encode(w, ws)) == w
  {
    if ws != 0 {
      assert w / 256 < Limit(ws - 1);
      DecodeEncode(w / 256, ws - 1);
      assert Encode(w, ws)[1..] == Encode(w / 256, ws - 1);
    }
  }

  lemma {:induction false} DecodeBelow(s: seq<Byte>)
    ensures Decode(s) < Limit(|s|)
  {
    if s != [] {
      DecodeBelow(s[1..]);
    }
  }

  lemma {:induction false} LimitBelow(ws: nat)
    requires ws in {4, 8}
    ensures Limit(ws) == if ws == 4 then 0x1_0000_0000 else 0x1_0000_0000_0000_0000
  {
    assert Limit(4) == 0x1_0000_0000;
    assert Limit(8) == 256 * (256 * (256 * (256 * Limit(4))));
  }

  function WordAt(mem: Memory, address: nat, ws: nat): nat
    requires Mapped(mem, address, ws)
  {
    Decode(Peek(mem, address, ws))
  }

  // ---- the layout of a pushed array ----------------------------------------------------

  function Bytes(x: XPointer): seq<Byte> {
    if x.local.Some? then x.local.value + [0] else []
  }

  /** The strings of the first entries, one after the other. */
  function Strings(e: Entries, n: nat): (s: seq<Byte>)
    requires n <= |e|
  {
    if n == 0 then [] else Strings(e, n - 1) + Bytes(e[n - 1])
  }

  function Offset(e: Entries, ws: nat, i: nat): nat
    requires i <= |e|
  {
    |e| * ws + |Strings(e, i)|
  }

  function Total(e: Entries, ws: nat): nat {
    Offset(e, ws, |e|)
  }

  /** The pointer that is stored for an entry when the block starts at `ptr`. */
  function Remote(e: Entries, ws: nat, ptr: nat, i: nat): nat
    requires i < |e|
  {
    if e[i].local.Some? then ptr + Offset(e, ws, i) else e[i].remote
  }

  function Table(e: Entries, ws: nat, ptr: nat, n: nat): (s: seq<Byte>)
    requires n <= |e|
    ensures |s| == n * ws
  {
    if n == 0 then [] else Table(e, ws, ptr, n - 1) + Encode(Remote(e, ws, ptr, n - 1), ws)
  }

  function Block(e: Entries, ws: nat, ptr: nat): (s: seq<Byte>)
    ensures |s| == Total(e, ws)
  {
    Table(e, ws, ptr, |e|) + Strings(e, |e|)
  }

  predicate Begins(s: seq<Byte>, start: seq<Byte>) {
    |start| <= |s| && s[..|start|] == start
  }

  predicate Contains(s: seq<Byte>, at: nat, part: seq<Byte>) {
    at + |part| <= |s| && s[at..at + |part|] == part
  }

  lemma BeginsLonger(s: seq<Byte>, start: seq<Byte>, t: seq<Byte>)
    requires Begins(s, start)
    ensures Begins(s + t, start)
  {
    assert (s + t)[..|start|] == s[..|start|];
  }

  lemma BeginsHolds(s: seq<Byte>, before: seq<Byte>, part: seq<Byte>)
    requires Begins(s, before + part)
    ensures Contains(s, |before|, part)
  {
    assert s[..|before| + |part|][|before|..] == (before + part)[|before|..] == part;
  }

  lemma HoldsAfter(s: seq<Byte>, t: seq<Byte>, at: nat, part: seq<Byte>, whole: seq<Byte>, place: nat)
    requires Contains(t, at, part) && whole == s + t && place == |s| + at
    ensures Contains(whole, place, part)
  {
    assert (s + t)[|s|..] == t;
    assert (s + t)[|s|..][at..at + |part|] == (s + t)[|s| + at..|s| + at + |part|];
  }

  lemma {:induction false} StringsGrow(e: Entries, n: nat, i: nat)
    requires i <= n <= |e|
    ensures Begins(Strings(e, n), Strings(e, i))
  {
    if i < n {
      StringsGrow(e, n - 1, i);
      BeginsLonger(Strings(e, n - 1), Strings(e, i), Bytes(e[n - 1]));
    }
  }

  lemma StringsAt(e: Entries, n: nat, i: nat)
    requires i < n <= |e|
    ensures |Strings(e, i)| + |Bytes(e[i])| == |Strings(e, i + 1)| <= |Strings(e, n)|
    ensures Contains(Strings(e, n), |Strings(e, i)|, Bytes(e[i]))
  {
    StringsGrow(e, n, i + 1);
    BeginsHolds(Strings(e, n), Strings(e, i), Bytes(e[i]));
  }

  lemma {:induction false} TableGrows(e: Entries, ws: nat, ptr: nat, n: nat, i: nat)
    requires i <= n <= |e|
    ensures Begins(Table(e, ws, ptr, n), Table(e, ws, ptr, i))
  {
    if i < n {
      TableGrows(e, ws, ptr, n - 1, i);
      BeginsLonger(Table(e, ws, ptr, n - 1), Table(e, ws, ptr, i), Encode(Remote(e, ws, ptr, n - 1), ws));
    }
  }

  lemma {:induction false} BlockHoldsWord(e: Entries, ws: nat, ptr: nat, i: nat)
    requires i < |e|
    ensures Contains(Block(e, ws, ptr), i * ws, Encode(Remote(e, ws, ptr, i), ws))
  {
    TableGrows(e, ws, ptr, |e|, i + 1);
    BeginsLonger(Table(e, ws, ptr, |e|), Table(e, ws, ptr, i + 1), Strings(e, |e|));
    BeginsHolds(Block(e, ws, ptr), Table(e, ws, ptr, i), Encode(Remote(e, ws, ptr, i), ws));
  }

  lemma BlockHoldsString(e: Entries, ws: nat, ptr: nat, i: nat)
    requires i < |e|
    ensures Contains(Block(e, ws, ptr), Offset(e, ws, i), Bytes(e[i]))
  {
    StringsAt(e, |e|, i);
    var table, strings := Table(e, ws, ptr, |e|), Strings(e, |e|);
    HoldsAfter(table, strings, |Strings(e, i)|, Bytes(e[i]), Block(e, ws, ptr), Offset(e, ws, i));
  }

  /** The strings lie after the table, in order and apart from each other, inside the block. */
  lemma StringsApart(e: Entries, ws: nat, i: nat, j: nat)
    requires i < j <= |e|
    ensures |e| * ws <= Offset(e, ws, i)
    ensures Offset(e, ws, i) + |Bytes(e[i])| <= Offset(e, ws, j) <= Total(e, ws)
  {
    StringsAt(e, j, i);
    StringsGrow(e, |e|, j);
  }

  // ---- what an array means --------------------------------------------------------------

  predicate StringAt(mem: Memory, address: nat, s: Text) {
    Mapped(mem, address, |s| + 1) && Peek(mem, address, |s|) == s && mem[address + |s|] == 0
  }

  /** What the tracee sees at `address`: pointers to these strings, then a null pointer. */
  ghost predicate ArgvAt(mem: Memory, address: nat, ws: nat, argv: seq<Text>) {
    && (forall i :: 0 <= i < |argv| ==> PointsTo(mem, address + i * ws, ws, argv[i]))
    && NullAt(mem, address + |argv| * ws, ws)
  }

  predicate PointsTo(mem: Memory, address: nat, ws: nat, s: Text) {
    Mapped(mem, address, ws) && WordAt(mem, address, ws) != 0 && StringAt(mem, WordAt(mem, address, ws), s)
  }

  predicate NullAt(mem: Memory, address: nat, ws: nat) {
    Mapped(mem, address, ws) && WordAt(mem, address, ws) == 0
  }

  /** What an array means while the tracer holds it. */
  predicate Denotes(mem: Memory, x: XPointer, s: Text) {
    if x.local.Some? then x.local.value == s else x.remote != 0 && StringAt(mem, x.remote, s)
  }

  ghost predicate Means(mem: Memory, e: Entries, argv: seq<Text>) {
    && |e| == |argv| + 1
    && (forall i :: 0 <= i < |argv| ==> Denotes(mem, e[i], argv[i]))
    && e[|argv|] == XPointer(0, None)
  }

  /** No string left in the tracee's memory is where the block goes. */
  ghost predicate Clear(e: Entries, argv: seq<Text>, ptr: nat, size: nat)
    requires |e| == |argv| + 1
  {
    forall i :: 0 <= i < |argv| && e[i].local.None? ==> e[i].remote + |argv[i]| < ptr || ptr + size <= e[i].remote
  }

  lemma NullOfString(mem: Memory, address: nat, s: Text, k: nat)
    requires StringAt(mem, address, s) && k <= |s|
    ensures address + k in mem && (mem[address + k] == 0 <==> k == |s|)
  {
    assert k < |s| ==> Peek(mem, address, |s|)[k] == s[k];
  }

  lemma StringUnique(mem: Memory, address: nat, s: Text, t: Text)
    requires StringAt(mem, address, s) && StringAt(mem, address, t)
    ensures s == t
  {
    var k := if |s| < |t| then |s| else |t|;
    NullOfString(mem, address, s, k);
    NullOfString(mem, address, t, k);
    assert s == Peek(mem, address, |s|) == t;
  }

  lemma NullOfArgv(mem: Memory, address: nat, ws: nat, argv: seq<Text>, k: nat)
    requires ArgvAt(mem, address, ws, argv) && k <= |argv|
    ensures Mapped(mem, address + k * ws, ws) && (WordAt(mem, address + k * ws, ws) == 0 <==> k == |argv|)
  {
    if k < |argv| {
      assert PointsTo(mem, address + k * ws, ws, argv[k]);
    }
  }

  /** Memory determines the array. */
  lemma ArgvUnique(mem: Memory, address: nat, ws: nat, a: seq<Text>, b: seq<Text>)
    requires ArgvAt(mem, address, ws, a) && ArgvAt(mem, address, ws, b)
    ensures a == b
  {
    var k := if |a| < |b| then |a| else |b|;
    NullOfArgv(mem, address, ws, a, k);
    NullOfArgv(mem, address, ws, b, k);
    forall i | 0 <= i < |a| ensures a[i] == b[i] {
      assert PointsTo(mem, address + i * ws, ws, a[i]);
      assert PointsTo(mem, address + i * ws, ws, b[i]);
      StringUnique(mem, WordAt(mem, address + i * ws, ws), a[i], b[i]);
    }
  }

  // ---- pushing keeps the meaning ---------------------------------------------------------

  lemma {:induction false} WordOfBytes(mem: Memory, address: nat, w: nat, ws: nat)
    requires w < Limit(ws) && Mapped(mem, address, ws) && Peek(mem, address, ws) == Encode(w, ws)
    ensures WordAt(mem, address, ws) == w
  {
    DecodeEncode(w, ws);
  }

  /** The entry read back at index `i`. */
  lemma {:induction false} PushedWord(mem: Memory, e: Entries, ws: nat, ptr: nat, i: nat, at: nat)
    requires i < |e| && at == i * ws
    requires Mapped(mem, ptr, Total(e, ws))
    requires Remote(e, ws, ptr, i) < Limit(ws)
    ensures var mem' := Poke(mem, ptr, Block(e, ws, ptr));
            Mapped(mem', ptr + at, ws) && WordAt(mem', ptr + at, ws) == Remote(e, ws, ptr, i)
  {
    BlockHoldsWord(e, ws, ptr, i);
    var mem', word := Poke(mem, ptr, Block(e, ws, ptr)), Remote(e, ws, ptr, i);
    Inside(mem, ptr, Block(e, ws, ptr), at, Encode(word, ws));
    WordOfBytes(mem', ptr + at, word, ws);
  }

  /** A part of what was written, read back. */
  lemma Inside(mem: Memory, ptr: nat, block: seq<Byte>, at: nat, part: seq<Byte>)
    requires Mapped(mem, ptr, |block|) && Contains(block, at, part)
    ensures Mapped(Poke(mem, ptr, block), ptr + at, |part|)
    ensures Peek(Poke(mem, ptr, block), ptr + at, |part|) == part
  {
    forall k | 0 <= k < |part| ensures block[at + k] == part[k] {
      assert block[at..at + |part|][k] == part[k];
    }
  }

  lemma NullTerminated(mem: Memory, address: nat, s: Text, whole: seq<Byte>)
    requires whole == s + [0] && Mapped(mem, address, |whole|) && Peek(mem, address, |whole|) == whole
    ensures StringAt(mem, address, s)
  {
    assert Peek(mem, address, |s|) == Peek(mem, address, |whole|)[..|s|] == s;
    assert mem[address + |s|] == whole[|s|];
  }

  lemma PushedString(mem: Memory, e: Entries, ws: nat, ptr: nat, i: nat)
    requires i < |e| && e[i].local.Some?
    requires Mapped(mem, ptr, Total(e, ws))
    ensures StringAt(Poke(mem, ptr, Block(e, ws, ptr)), ptr + Offset(e, ws, i), e[i].local.value)
  {
    BlockHoldsString(e, ws, ptr, i);
    Inside(mem, ptr, Block(e, ws, ptr), Offset(e, ws, i), Bytes(e[i]));
    NullTerminated(Poke(mem, ptr, Block(e, ws, ptr)), ptr + Offset(e, ws, i), e[i].local.value, Bytes(e[i]));
  }

  lemma KeptString(mem: Memory, ptr: nat, block: seq<Byte>, address: nat, s: Text)
    requires StringAt(mem, address, s)
    requires address + |s| < ptr || ptr + |block| <= address
    ensures StringAt(Poke(mem, ptr, block), address, s)
  {
    assert Peek(Poke(mem, ptr, block), address, |s|) == Peek(mem, address, |s|);
  }

  /** Pointers into the tracee fit its words. */
  ghost predicate Below(e: Entries, limit: nat) {
    forall i :: 0 <= i < |e| && e[i].local.None? ==> e[i].remote < limit
  }

  /** The strings that were left in the tracee are still where they were. */
  ghost predicate Stay(mem: Memory, e: Entries, argv: seq<Text>)
    requires |e| == |argv| + 1
  {
    forall i :: 0 <= i < |argv| ==> Stays(mem, e[i], argv[i])
  }

  predicate Stays(mem: Memory, x: XPointer, s: Text) {
    x.local.None? ==> StringAt(mem, x.remote, s)
  }

  /** Once pushed, the tracee sees in its memory the array the tracer held if and only if the block was
      not written over one of the strings that were left there. */
  lemma {:induction false} PushMeaningIff(mem: Memory, e: Entries, argv: seq<Text>, ws: nat, ptr: nat)
    requires Means(mem, e, argv)
    requires Mapped(mem, ptr, Total(e, ws)) && ptr != 0
    requires ptr + Total(e, ws) <= Limit(ws) && Below(e, Limit(ws))
    ensures var mem' := Poke(mem, ptr, Block(e, ws, ptr)); ArgvAt(mem', ptr, ws, argv) <==> Stay(mem', e, argv)
  {
    var mem' := Poke(mem, ptr, Block(e, ws, ptr));
    PushedNull(mem, e, argv, ws, ptr);
    forall i | 0 <= i < |argv| ensures PointsTo(mem', ptr + i * ws, ws, argv[i]) <==> Stays(mem', e[i], argv[i]) {
      assert Denotes(mem, e[i], argv[i]);
      PushedEntry(mem, e, ws, ptr, i, i * ws, argv[i]);
    }
  }

  lemma {:induction false} PushedNull(mem: Memory, e: Entries, argv: seq<Text>, ws: nat, ptr: nat)
    requires Means(mem, e, argv) && Mapped(mem, ptr, Total(e, ws)) && ptr + Total(e, ws) <= Limit(ws) && Below(e, Limit(ws))
    ensures NullAt(Poke(mem, ptr, Block(e, ws, ptr)), ptr + |argv| * ws, ws)
  {
    PushedWord(mem, e, ws, ptr, |argv|, |argv| * ws);
  }

  /** In particular when none of them is where the block goes. */
  lemma {:induction false} PushMeaning(mem: Memory, e: Entries, argv: seq<Text>, ws: nat, ptr: nat)
    requires Means(mem, e, argv)
    requires Mapped(mem, ptr, Total(e, ws)) && ptr != 0
    requires ptr + Total(e, ws) <= Limit(ws) && Below(e, Limit(ws))
    requires Clear(e, argv, ptr, Total(e, ws))
    ensures ArgvAt(Poke(mem, ptr, Block(e, ws, ptr)), ptr, ws, argv)
  {
    ClearStay(mem, e, argv, ptr, Block(e, ws, ptr));
    PushMeaningIff(mem, e, argv, ws, ptr);
  }

  lemma ClearStay(mem: Memory, e: Entries, argv: seq<Text>, ptr: nat, block: seq<Byte>)
    requires Means(mem, e, argv) && Clear(e, argv, ptr, |block|)
    ensures Stay(Poke(mem, ptr, block), e, argv)
  {
    forall i | 0 <= i < |argv| ensures Stays(Poke(mem, ptr, block), e[i], argv[i]) {
      assert Denotes(mem, e[i], argv[i]);
      if e[i].local.None? {
        KeptString(mem, ptr, block, e[i].remote, argv[i]);
      }
    }
  }

  lemma {:induction false} PushedEntry(mem: Memory, e: Entries, ws: nat, ptr: nat, i: nat, at: nat, s: Text)
    requires i < |e| && at == i * ws && Denotes(mem, e[i], s)
    requires Mapped(mem, ptr, Total(e, ws)) && ptr != 0
    requires ptr + Total(e, ws) <= Limit(ws) && (e[i].local.None? ==> e[i].remote < Limit(ws))
    ensures var mem' := Poke(mem, ptr, Block(e, ws, ptr));
            PointsTo(mem', ptr + at, ws, s) <==> Stays(mem', e[i], s)
  {
    RemoteBelow(e, ws, ptr, i);
    PushedWord(mem, e, ws, ptr, i, at);
    if e[i].local.Some? {
      PushedString(mem, e, ws, ptr, i);
    }
  }

  /** An empty string that was left where the name of another one goes is lost. */
  lemma {:induction false} OverwrittenString(mem: Memory, e: Entries, argv: seq<Text>, ws: nat, ptr: nat, i: nat, j: nat)
    requires Means(mem, e, argv) && i < |argv| && j < |argv|
    requires Mapped(mem, ptr, Total(e, ws)) && ptr != 0
    requires ptr + Total(e, ws) <= Limit(ws) && Below(e, Limit(ws))
    requires e[j].local.Some? && argv[j] != []
    requires e[i].local.None? && argv[i] == [] && e[i].remote == ptr + Offset(e, ws, j)
    ensures !ArgvAt(Poke(mem, ptr, Block(e, ws, ptr)), ptr, ws, argv)
  {
    var mem' := Poke(mem, ptr, Block(e, ws, ptr));
    assert Denotes(mem, e[j], argv[j]);
    PushedString(mem, e, ws, ptr, j);
    NullOfString(mem', ptr + Offset(e, ws, j), argv[j], 0);
    assert !Stays(mem', e[i], argv[i]);
    PushMeaningIff(mem, e, argv, ws, ptr);
  }

  lemma {:induction false} RemoteBelow(e: Entries, ws: nat, ptr: nat, i: nat)
    requires i < |e| && (e[i].local.None? ==> e[i].remote < Limit(ws)) && ptr + Total(e, ws) <= Limit(ws)
    ensures Remote(e, ws, ptr, i) < Limit(ws)
  {
    StringsApart(e, ws, i, |e|);
  }

  // ---- fetching --------------------------------------------------------------------------

  /** The words of an array up to the null pointer, as a fetch finds them. */
  ghost predicate Fetched(mem: Memory, address: nat, ws: nat, e: Entries) {
    && e != []
    && (forall i :: 0 <= i < |e| ==> WordFetched(mem, address + i * ws, ws, e[i]))
    && (forall i :: 0 <= i < |e| - 1 ==> e[i].remote != 0)
  }

  predicate WordFetched(mem: Memory, address: nat, ws: nat, x: XPointer) {
    Mapped(mem, address, ws) && x == XPointer(WordAt(mem, address, ws), None)
  }

  /** What a fetch returns means what is in memory. */
  lemma FetchMeaning(mem: Memory, address: nat, ws: nat, e: Entries, argv: seq<Text>)
    requires ArgvAt(mem, address, ws, argv)
    requires Fetched(mem, address, ws, e) && e[|e| - 1].remote == 0
    ensures Means(mem, e, argv)
  {
    var k := if |e| - 1 < |argv| then |e| - 1 else |argv|;
    NullOfArgv(mem, address, ws, argv, k);
    assert WordFetched(mem, address + k * ws, ws, e[k]);
    assert |e| == |argv| + 1;
    forall i | 0 <= i < |argv| ensures Denotes(mem, e[i], argv[i]) {
      assert WordFetched(mem, address + i * ws, ws, e[i]);
      assert PointsTo(mem, address + i * ws, ws, argv[i]);
    }
  }

  predicate WordReadable(mem: Memory, address: nat, ws: nat, direct: bool) {
    Mapped(mem, address, if direct then ws else WORD)
  }

  /** The array at an address, up to its null pointer; none if one of its words cannot be read. */
  ghost function ArrayAt(mem: Memory, address: nat, ws: nat, direct: bool): Option<Entries>
    requires 0 < ws <= WORD
    decreases |Above(mem, address)|
  {
    if !WordReadable(mem, address, ws, direct) then None
    else if WordAt(mem, address, ws) == 0 then Some([XPointer(0, None)])
    else
      AboveShrinks(mem, address, ws);
      match ArrayAt(mem, address + ws, ws, direct)
      case None => None
      case Some(rest) => Some([XPointer(WordAt(mem, address, ws), None)] + rest)
  }

  /** The entries that are not the words read at an address. */
  ghost function Misread(mem: Memory, address: nat, ws: nat, direct: bool, e: Entries): set<nat> {
    set k | 0 <= k < |e| && !WordRead(mem, address + k * ws, ws, direct, e[k])
  }

  predicate WordRead(mem: Memory, address: nat, ws: nat, direct: bool, x: XPointer) {
    WordReadable(mem, address, ws, direct) && WordFetched(mem, address, ws, x)
  }

  lemma ReadAt(mem: Memory, address: nat, ws: nat, direct: bool, e: Entries)
    requires Misread(mem, address, ws, direct, e) == {}
    ensures forall k :: 0 <= k < |e| ==>
              WordReadable(mem, address + k * ws, ws, direct) && WordFetched(mem, address + k * ws, ws, e[k])
  {
    forall k | 0 <= k < |e|
      ensures WordReadable(mem, address + k * ws, ws, direct) && WordFetched(mem, address + k * ws, ws, e[k])
    {
      assert k !in Misread(mem, address, ws, direct, e);
    }
  }

  lemma ReadNext(mem: Memory, address: nat, ws: nat, direct: bool, e: Entries, x: XPointer)
    requires Misread(mem, address, ws, direct, e) == {} && WordRead(mem, address + |e| * ws, ws, direct, x)
    ensures Misread(mem, address, ws, direct, e + [x]) == {}
  {
    ReadAt(mem, address, ws, direct, e);
    forall k | 0 <= k < |e| ensures WordRead(mem, address + k * ws, ws, direct, (e + [x])[k]) {
      assert WordReadable(mem, address + k * ws, ws, direct) && (e + [x])[k] == e[k];
    }
  }

  lemma ArrayNext(mem: Memory, address: nat, ws: nat, direct: bool, x: XPointer)
    requires 0 < ws <= WORD && WordReadable(mem, address, ws, direct) && WordFetched(mem, address, ws, x)
    ensures ArrayAt(mem, address, ws, direct) ==
            if x.remote == 0 then Some([x])
            else match ArrayAt(mem, address + ws, ws, direct) case None => None case Some(rest) => Some([x] + rest)
  {
  }

  lemma {:induction false} ArrayFetched(mem: Memory, address: nat, ws: nat, direct: bool, e: Entries, i: nat, at: nat)
    requires 0 < ws <= WORD && Misread(mem, address, ws, direct, e) == {}
    requires forall k :: 0 <= k < |e| ==> (e[k].remote == 0 <==> k == |e| - 1)
    requires i < |e| && at == address + i * ws
    ensures ArrayAt(mem, at, ws, direct) == Some(e[i..])
    decreases |e| - i
  {
    assert i !in Misread(mem, address, ws, direct, e);
    ArrayNext(mem, at, ws, direct, e[i]);
    assert e[i..] == [e[i]] + e[i + 1..];
    if i == |e| - 1 {
      assert e[i..] == [e[i]];
    } else {
      NextWord(address, ws, i);
      ArrayFetched(mem, address, ws, direct, e, i + 1, at + ws);
    }
  }

  lemma {:induction false} ArrayFaults(mem: Memory, address: nat, ws: nat, direct: bool, e: Entries, i: nat, at: nat)
    requires 0 < ws <= WORD && !WordReadable(mem, address + |e| * ws, ws, direct)
    requires Misread(mem, address, ws, direct, e) == {} && forall k :: 0 <= k < |e| ==> e[k].remote != 0
    requires i <= |e| && at == address + i * ws
    ensures ArrayAt(mem, at, ws, direct) == None
    decreases |e| - i
  {
    if i < |e| {
      assert i !in Misread(mem, address, ws, direct, e);
      ArrayNext(mem, at, ws, direct, e[i]);
      NextWord(address, ws, i);
      ArrayFaults(mem, address, ws, direct, e, i + 1, at + ws);
    }
  }

  lemma WholeFetched(mem: Memory, address: nat, ws: nat, direct: bool, e: Entries)
    requires Misread(mem, address, ws, direct, e) == {} && e != [] && forall k :: 0 <= k < |e| - 1 ==> e[k].remote != 0
    ensures Fetched(mem, address, ws, e)
  {
    ReadAt(mem, address, ws, direct, e);
  }

  lemma NextWord(address: nat, ws: nat, i: nat)
    ensures address + i * ws + ws == address + (i + 1) * ws
  {
  }

  /** An array that can be read holds the words that are in memory. */
  lemma {:induction false} ArrayIsFetched(mem: Memory, address: nat, ws: nat, direct: bool, e: Entries)
    requires 0 < ws <= WORD && ArrayAt(mem, address, ws, direct) == Some(e)
    ensures e != [] && Misread(mem, address, ws, direct, e) == {}
    ensures forall k :: 0 <= k < |e| ==> (e[k].remote == 0 <==> k == |e| - 1)
    decreases |e|
  {
    var x := XPointer(WordAt(mem, address, ws), None);
    ArrayNext(mem, address, ws, direct, x);
    if x.remote != 0 {
      var rest := ArrayAt(mem, address + ws, ws, direct).value;
      assert e == [x] + rest;
      ArrayIsFetched(mem, address + ws, ws, direct, rest);
      ReadBefore(mem, address, ws, direct, x, rest);
    } else {
      assert e == [] + [x];
      ReadNext(mem, address, ws, direct, [], x);
    }
  }

  lemma ReadBefore(mem: Memory, address: nat, ws: nat, direct: bool, x: XPointer, rest: Entries)
    requires 0 < ws <= WORD && WordRead(mem, address, ws, direct, x) && Misread(mem, address + ws, ws, direct, rest) == {}
    ensures Misread(mem, address, ws, direct, [x] + rest) == {}
  {
    var e := [x] + rest;
    forall k | 0 <= k < |e| ensures WordRead(mem, address + k * ws, ws, direct, e[k]) {
      if k > 0 {
        assert k - 1 !in Misread(mem, address + ws, ws, direct, rest);
        NextWord(address, ws, k - 1);
      }
    }
  }

  /** What the tracee sees as an array of strings can be read if and only if each of its words can. */
  lemma {:induction false} ArgvReadIff(mem: Memory, address: nat, ws: nat, direct: bool, argv: seq<Text>)
    requires 0 < ws <= WORD && ArgvAt(mem, address, ws, argv)
    ensures ArrayAt(mem, address, ws, direct).Some? <==> forall i :: 0 <= i <= |argv| ==> WordReadable(mem, address + i * ws, ws, direct)
    ensures ArrayAt(mem, address, ws, direct).Some? ==> Means(mem, ArrayAt(mem, address, ws, direct).value, argv)
  {
    if ArrayAt(mem, address, ws, direct).Some? {
      var e := ArrayAt(mem, address, ws, direct).value;
      ArrayIsFetched(mem, address, ws, direct, e);
      WholeFetched(mem, address, ws, direct, e);
      FetchMeaning(mem, address, ws, e, argv);
      ReadAt(mem, address, ws, direct, e);
    } else if forall i :: 0 <= i <= |argv| ==> WordReadable(mem, address + i * ws, ws, direct) {
      var e := WordsOfArgv(mem, address, ws, argv, |argv| + 1);
      ArgvWords(mem, address, ws, direct, argv, |argv| + 1);
      forall k | 0 <= k < |e| ensures e[k].remote == 0 <==> k == |argv| {
        NullOfArgv(mem, address, ws, argv, k);
      }
      ArrayFetched(mem, address, ws, direct, e, 0, address);
    }
  }

  function WordsOfArgv(mem: Memory, address: nat, ws: nat, argv: seq<Text>, n: nat): (e: Entries)
    requires n <= |argv| + 1 && ArgvAt(mem, address, ws, argv)
    ensures |e| == n
    ensures forall k :: 0 <= k < n ==>
              Mapped(mem, address + k * ws, ws) && e[k] == XPointer(WordAt(mem, address + k * ws, ws), None)
  {
    if n == 0 then []
    else
      NullOfArgv(mem, address, ws, argv, n - 1);
      WordsOfArgv(mem, address, ws, argv, n - 1) + [XPointer(WordAt(mem, address + (n - 1) * ws, ws), None)]
  }

  lemma {:induction false} ArgvWords(mem: Memory, address: nat, ws: nat, direct: bool, argv: seq<Text>, n: nat)
    requires n <= |argv| + 1 && ArgvAt(mem, address, ws, argv)
    requires forall i :: 0 <= i < n ==> WordReadable(mem, address + i * ws, ws, direct)
    ensures Misread(mem, address, ws, direct, WordsOfArgv(mem, address, ws, argv, n)) == {}
  {
    var e := WordsOfArgv(mem, address, ws, argv, n);
    forall k | 0 <= k < |e| ensures WordRead(mem, address + k * ws, ws, direct, e[k]) {
      assert WordReadable(mem, address + k * ws, ws, direct);
    }
  }

  /** Pushing an array and fetching it again: as many entries, the same strings. */
  lemma {:induction false} PushFetch(mem: Memory, e: Entries, argv: seq<Text>, ws: nat, ptr: nat, f: Entries)
    requires Means(mem, e, argv)
    requires Mapped(mem, ptr, Total(e, ws)) && ptr != 0
    requires ptr + Total(e, ws) <= Limit(ws) && Below(e, Limit(ws))
    requires Clear(e, argv, ptr, Total(e, ws))
    requires Fetched(Poke(mem, ptr, Block(e, ws, ptr)), ptr, ws, f) && f[|f| - 1].remote == 0
    ensures |f| == |e| && Means(Poke(mem, ptr, Block(e, ws, ptr)), f, argv)
  {
    PushMeaning(mem, e, argv, ws, ptr);
    FetchMeaning(Poke(mem, ptr, Block(e, ws, ptr)), ptr, ws, f, argv);
  }

  // ---- the tracer's side ----------------------------------------------------------------

  function Concat(parts: seq<seq<Byte>>): (s: seq<Byte>) {
    if parts == [] then [] else Concat(parts[..|parts| - 1]) + parts[|parts| - 1]
  }

  lemma {:induction false} ConcatNext(parts: seq<seq<Byte>>, part: seq<Byte>)
    ensures Concat(parts + [part]) == Concat(parts) + part
  {
    assert (parts + [part])[..|parts|] == parts;
  }

  lemma {:induction false} ConcatFirst(part: seq<Byte>, parts: seq<seq<Byte>>)
    ensures Concat([part] + parts) == part + Concat(parts)
  {
    if parts == [] {
      assert [part] + parts == [part];
      ConcatNext([], part);
    } else {
      var front, last := parts[..|parts| - 1], parts[|parts| - 1];
      ConcatFirst(part, front);
      assert [part] + parts == ([part] + front) + [last];
      ConcatNext([part] + front, last);
    }
  }

  lemma {:induction false} ConcatBegins(parts: seq<seq<Byte>>, n: nat)
    requires n <= |parts|
    ensures Begins(Concat(parts), Concat(parts[..n]))
    decreases |parts| - n
  {
    if n < |parts| {
      ConcatBegins(parts, n + 1);
      assert parts[..n + 1] == parts[..n] + [parts[n]];
      ConcatNext(parts[..n], parts[n]);
      var longer := Concat(parts[..n + 1]);
      assert Concat(parts)[..|Concat(parts[..n])|] == longer[..|Concat(parts[..n])|];
    } else {
      assert parts[..n] == parts;
    }
  }

  lemma PokeAppend(mem: Memory, address: int, a: seq<Byte>, b: seq<Byte>)
    ensures Poke(Poke(mem, address, a), address + |a|, b) == Poke(mem, address, a + b)
  {
  }

  /** Every part can be written where it goes, after those before it. */
  ghost predicate PartsStorable(mem: Memory, readOnly: set<int>, direct: bool, address: nat, parts: seq<seq<Byte>>) {
    Unstorable(mem, readOnly, direct, address, parts) == {}
  }

  ghost function Unstorable(mem: Memory, readOnly: set<int>, direct: bool, address: nat, parts: seq<seq<Byte>>): set<nat> {
    set i | 0 <= i < |parts| && !PartStorable(mem, readOnly, direct, address, parts, i)
  }

  lemma AllStorable(mem: Memory, readOnly: set<int>, direct: bool, address: nat, parts: seq<seq<Byte>>)
    ensures PartsStorable(mem, readOnly, direct, address, parts)
            <==> forall i :: 0 <= i < |parts| ==> PartStorable(mem, readOnly, direct, address, parts, i)
  {
    forall i | 0 <= i < |parts|
      ensures PartStorable(mem, readOnly, direct, address, parts, i) <==> i !in Unstorable(mem, readOnly, direct, address, parts)
    {
    }
  }

  predicate PartStorable(mem: Memory, readOnly: set<int>, direct: bool, address: nat, parts: seq<seq<Byte>>, i: nat)
    requires i < |parts|
  {
    Storable(mem, readOnly, direct, address + |Concat(parts[..i])|, |parts[i]|)
  }

  /** Where all can be written at once, so can every part. */
  lemma {:induction false} WholeStorable(mem: Memory, readOnly: set<int>, address: nat, parts: seq<seq<Byte>>)
    requires Permitted(mem, readOnly, address, |Concat(parts)|)
    ensures PartsStorable(mem, readOnly, true, address, parts)
  {
    forall i | 0 <= i < |parts| ensures PartStorable(mem, readOnly, true, address, parts, i) {
      NextPart(parts, i);
    }
    AllStorable(mem, readOnly, true, address, parts);
  }

  lemma {:induction false} PartsSnoc(mem: Memory, readOnly: set<int>, direct: bool, address: nat, parts: seq<seq<Byte>>, part: seq<Byte>)
    ensures PartsStorable(mem, readOnly, direct, address, parts + [part])
            <==> PartsStorable(mem, readOnly, direct, address, parts)
                 && Storable(mem, readOnly, direct, address + |Concat(parts)|, |part|)
  {
    var all := parts + [part];
    AllStorable(mem, readOnly, direct, address, parts);
    AllStorable(mem, readOnly, direct, address, all);
    assert all[..|parts|] == parts;
    forall i | 0 <= i < |parts|
      ensures PartStorable(mem, readOnly, direct, address, all, i) <==> PartStorable(mem, readOnly, direct, address, parts, i)
    {
      assert all[..i] == parts[..i];
    }
    assert PartStorable(mem, readOnly, direct, address, all, |parts|)
           <==> Storable(mem, readOnly, direct, address + |Concat(parts)|, |part|);
  }

  /** Whether a part can be written does not depend on what was written before it. */
  lemma NextStorable(mem: Memory, mem': Memory, readOnly: set<int>, direct: bool, address: nat, parts: seq<seq<Byte>>, i: nat, size: nat)
    requires i < |parts| && mem'.Keys == mem.Keys && size == |Concat(parts[..i])|
    ensures PartStorable(mem, readOnly, direct, address, parts, i)
            <==> Storable(mem', readOnly, direct, address + size, |parts[i]|)
  {
    SameStorable(mem, mem', readOnly, direct, address + size, |parts[i]|);
  }

  /** The buffers of the modified strings, in their order. */
  function Buffers(e: Entries, n: nat): seq<seq<Byte>>
    requires n <= |e|
  {
    if n == 0 then []
    else if e[n - 1].local.Some? then Buffers(e, n - 1) + [Bytes(e[n - 1])]
    else Buffers(e, n - 1)
  }

  lemma {:induction false} BuffersAreStrings(e: Entries, n: nat)
    requires n <= |e|
    ensures Concat(Buffers(e, n)) == Strings(e, n)
  {
    if n > 0 {
      BuffersAreStrings(e, n - 1);
      if e[n - 1].local.Some? {
        ConcatNext(Buffers(e, n - 1), Bytes(e[n - 1]));
      } else {
        assert Strings(e, n - 1) + [] == Strings(e, n - 1);
      }
    }
  }

  lemma {:induction false} NoBuffers(e: Entries, n: nat)
    requires n <= |e|
    ensures Buffers(e, n) == [] <==> forall k :: 0 <= k < n ==> e[k].local.None?
  {
    if n > 0 {
      NoBuffers(e, n - 1);
    }
  }

  /** The table of a block and each of its strings can be written where they go. */
  ghost predicate BlockStorable(mem: Memory, readOnly: set<int>, direct: bool, e: Entries, ws: nat, ptr: nat) {
    Obstacles(mem, readOnly, direct, e, ws, ptr) == {}
  }

  /** The strings that cannot be written, and the number of all entries if their table cannot. */
  ghost function Obstacles(mem: Memory, readOnly: set<int>, direct: bool, e: Entries, ws: nat, ptr: nat): set<nat> {
    set k | 0 <= k <= |e| && if k == |e| then !Storable(mem, readOnly, direct, ptr, |e| * ws)
                             else e[k].local.Some? && !StringStorable(mem, readOnly, direct, e, ws, ptr, k)
  }

  lemma BlockPieces(mem: Memory, readOnly: set<int>, direct: bool, e: Entries, ws: nat, ptr: nat)
    ensures BlockStorable(mem, readOnly, direct, e, ws, ptr)
            <==> Storable(mem, readOnly, direct, ptr, |e| * ws) && StringsStorable(mem, readOnly, direct, e, ws, ptr, |e|)
  {
    var bad := Obstacles(mem, readOnly, direct, e, ws, ptr);
    assert |e| in bad <==> !Storable(mem, readOnly, direct, ptr, |e| * ws);
    forall k: nat | k < |e| && e[k].local.Some?
      ensures StringStorable(mem, readOnly, direct, e, ws, ptr, k) <==> k !in bad
    {
    }
  }

  predicate StringsStorable(mem: Memory, readOnly: set<int>, direct: bool, e: Entries, ws: nat, ptr: nat, n: nat)
    requires n <= |e|
  {
    forall k :: 0 <= k < n && e[k].local.Some? ==> StringStorable(mem, readOnly, direct, e, ws, ptr, k)
  }

  predicate StringStorable(mem: Memory, readOnly: set<int>, direct: bool, e: Entries, ws: nat, ptr: nat, k: nat)
    requires k < |e|
  {
    Storable(mem, readOnly, direct, ptr + Offset(e, ws, k), |Bytes(e[k])|)
  }

  lemma BuffersNext(e: Entries, n: nat, table: seq<Byte>)
    requires 0 < n <= |e|
    ensures [table] + Buffers(e, n) ==
            if e[n - 1].local.Some? then [table] + Buffers(e, n - 1) + [Bytes(e[n - 1])] else [table] + Buffers(e, n - 1)
  {
  }

  lemma {:induction false} BuffersSize(e: Entries, ws: nat, table: seq<Byte>, n: nat)
    requires n <= |e| && |table| == |e| * ws
    ensures |Concat([table] + Buffers(e, n))| == Offset(e, ws, n)
  {
    ConcatFirst(table, Buffers(e, n));
    BuffersAreStrings(e, n);
  }

  lemma StringsNext(mem: Memory, readOnly: set<int>, direct: bool, e: Entries, ws: nat, ptr: nat, n: nat)
    requires 0 < n <= |e|
    ensures StringsStorable(mem, readOnly, direct, e, ws, ptr, n)
            <==> StringsStorable(mem, readOnly, direct, e, ws, ptr, n - 1)
                 && (e[n - 1].local.Some? ==> StringStorable(mem, readOnly, direct, e, ws, ptr, n - 1))
  {
  }

  /** `writable` tells whether the table can be written. */
  lemma {:induction false} BuffersStorable(mem: Memory, readOnly: set<int>, direct: bool, e: Entries, ws: nat, ptr: nat,
                                           table: seq<Byte>, n: nat, writable: bool)
    requires n <= |e| && |table| == |e| * ws && (writable <==> Storable(mem, readOnly, direct, ptr, |table|))
    ensures PartsStorable(mem, readOnly, direct, ptr, [table] + Buffers(e, n))
            <==> writable && StringsStorable(mem, readOnly, direct, e, ws, ptr, n)
  {
    if n == 0 {
      assert [table] + Buffers(e, 0) == [] + [table];
      PartsSnoc(mem, readOnly, direct, ptr, [], table);
    } else {
      BuffersStorable(mem, readOnly, direct, e, ws, ptr, table, n - 1, writable);
      BuffersNext(e, n, table);
      BuffersSize(e, ws, table, n - 1);
      OneStorable(mem, readOnly, direct, e, ws, ptr, n, [table] + Buffers(e, n - 1), writable);
    }
  }

  lemma {:induction false} OneStorable(mem: Memory, readOnly: set<int>, direct: bool, e: Entries, ws: nat, ptr: nat,
                                       n: nat, before: seq<seq<Byte>>, writable: bool)
    requires 0 < n <= |e| && |Concat(before)| == Offset(e, ws, n - 1)
    requires PartsStorable(mem, readOnly, direct, ptr, before)
             <==> writable && StringsStorable(mem, readOnly, direct, e, ws, ptr, n - 1)
    ensures PartsStorable(mem, readOnly, direct, ptr, if e[n - 1].local.Some? then before + [Bytes(e[n - 1])] else before)
            <==> writable && StringsStorable(mem, readOnly, direct, e, ws, ptr, n)
  {
    StringsNext(mem, readOnly, direct, e, ws, ptr, n);
    PartsSnoc(mem, readOnly, direct, ptr, before, Bytes(e[n - 1]));
  }

  lemma PartWritten(start: Memory, mem: Memory, mem': Memory, address: nat, parts: seq<seq<Byte>>, i: nat, size: nat)
    requires i < |parts| && size == |Concat(parts[..i])|
    requires mem == Poke(start, address, Concat(parts[..i])) && mem' == Poke(mem, address + size, parts[i])
    requires Mapped(start, address, size) && Mapped(mem, address + size, |parts[i]|) && mem.Keys == start.Keys
    ensures mem' == Poke(start, address, Concat(parts[..i + 1]))
    ensures Mapped(start, address, size + |parts[i]|) && size + |parts[i]| == |Concat(parts[..i + 1])|
  {
    NextPart(parts, i);
    PokeAppend(start, address, Concat(parts[..i]), parts[i]);
    MappedMore(start, address, size, mem, |parts[i]|);
  }

  /** Only the strings that the tracer holds, and the number of entries, make a difference. */
  ghost predicate SameStrings(e: Entries, f: Entries) {
    |e| == |f| && forall k :: 0 <= k < |e| ==> e[k].local == f[k].local
  }

  lemma {:induction false} SameBlock(e: Entries, f: Entries, n: nat)
    requires SameStrings(e, f) && n <= |e|
    ensures Strings(e, n) == Strings(f, n)
  {
    if n > 0 {
      SameBlock(e, f, n - 1);
    }
  }

  lemma {:induction false} SameObstacles(mem: Memory, readOnly: set<int>, direct: bool, e: Entries, f: Entries, ws: nat, ptr: nat)
    requires SameStrings(e, f)
    ensures BlockStorable(mem, readOnly, direct, e, ws, ptr) <==> BlockStorable(mem, readOnly, direct, f, ws, ptr)
  {
    forall k | 0 <= k < |e|
      ensures StringStorable(mem, readOnly, direct, e, ws, ptr, k) <==> StringStorable(mem, readOnly, direct, f, ws, ptr, k)
    {
      SameBlock(e, f, k);
    }
    assert Obstacles(mem, readOnly, direct, e, ws, ptr) == Obstacles(mem, readOnly, direct, f, ws, ptr);
  }

  lemma SameStorable(mem: Memory, mem': Memory, readOnly: set<int>, direct: bool, address: int, size: nat)
    requires mem'.Keys == mem.Keys
    ensures Storable(mem', readOnly, direct, address, size) <==> Storable(mem, readOnly, direct, address, size)
  {
    assert forall a :: a in mem <==> a in mem.Keys;
    assert forall a :: a in mem' <==> a in mem'.Keys;
  }

  lemma NextPart(parts: seq<seq<Byte>>, i: nat)
    requires i < |parts|
    ensures Concat(parts[..i + 1]) == Concat(parts[..i]) + parts[i]
    ensures |Concat(parts[..i + 1])| <= |Concat(parts)|
  {
    ConcatBegins(parts, i + 1);
    assert parts[..i + 1] == parts[..i] + [parts[i]];
    ConcatNext(parts[..i], parts[i]);
  }

  lemma MappedMore(start: Memory, address: int, size: nat, mem: Memory, n: nat)
    requires Mapped(start, address, size) && mem.Keys == start.Keys && Mapped(mem, address + size, n)
    ensures Mapped(start, address, size + n)
  {
    assert forall a :: a in mem <==> a in mem.Keys;
  }

  /** Only these bytes may have changed. */
  ghost predicate KeptOutside(mem: Memory, mem': Memory, address: int, size: nat) {
    mem'.Keys == mem.Keys && forall a :: a in mem && !(address <= a < address + size) ==> mem'[a] == mem[a]
  }

  lemma PokeKeepsOutside(before: Memory, mem: Memory, address: int, s: seq<Byte>, size: nat)
    requires KeptOutside(before, mem, address, size) && |s| <= size
    ensures KeptOutside(before, Poke(mem, address, s), address, size)
  {
  }

  lemma KeptOutsideMore(before: Memory, mem: Memory, mem': Memory, address: int, size: nat, place: int, n: nat)
    requires KeptOutside(before, mem, address, size) && address <= place && place + n <= address + size
    requires KeptOutside(mem, mem', place, n)
    ensures KeptOutside(before, mem', address, size)
  {
  }

  /** The words still to be examined by a fetch. */
  ghost function Above(mem: Memory, address: nat): set<int> {
    set a | a in mem && address <= a
  }

  lemma AboveShrinks(mem: Memory, address: nat, ws: nat)
    requires ws > 0 && Mapped(mem, address, ws)
    ensures |Above(mem, address + ws)| < |Above(mem, address)|
  {
    var fewer := Above(mem, address) - {address};
    assert address in Above(mem, address);
    assert Above(mem, address + ws) <= fewer;
    SubsetSize(Above(mem, address + ws), fewer);
  }

  lemma SubsetSize(a: set<int>, b: set<int>)
    requires a <= b
    ensures |a| <= |b|
  {
    assert |b - a| + |a * b| == |b| && a * b == a;
  }

  /** What copying a string comes to. */
  function CopyStatus(mem: Memory, address: nat, direct: bool): int {
    var n := StringStatus(mem, address, ARG_MAX, direct);
    if n < 0 then n else if n >= ARG_MAX then -ENOMEM else 0
  }

  /** A null byte after `n` others, which can be read: without the direct transfer, with its whole word. */
  predicate EndsAfter(mem: Memory, address: nat, n: nat, direct: bool) {
    && NoNull(mem, address, n) && address + n in mem && mem[address + n] == 0
    && (direct || Mapped(mem, address + n / WORD * WORD, WORD))
  }

  /** A string is copied if and only if it can be read and is shorter than ARG_MAX, its null byte
      included; it is too long when it can be read so far, and the word after it when it goes on. */
  lemma {:induction false} CopyMeaning(mem: Memory, address: nat, direct: bool)
    ensures CopyStatus(mem, address, direct) in {0, -ENOMEM, -EFAULT}
    ensures CopyStatus(mem, address, direct) == 0 <==>
            exists n: nat :: n + 1 < ARG_MAX && EndsAfter(mem, address, n, direct)
    ensures CopyStatus(mem, address, direct) == -ENOMEM <==>
            || EndsAfter(mem, address, ARG_MAX - 1, direct)
            || (NoNull(mem, address, ARG_MAX) && Mapped(mem, address + ARG_MAX, WORD))
  {
    ScanMeaning(mem, address, ARG_MAX, 0);
    var scan := ScanFrom(mem, address, ARG_MAX, 0);
    var good := match scan case Found(k) => k case Fault(k) => k case TooLong => ARG_MAX;
    assert NoNull(mem, address, good);
    forall n: nat | EndsAfter(mem, address, n, direct) ensures good <= n && !scan.Fault? && (scan.Found? ==> n == good) {
      NotBefore(mem, address, n, good);
      if scan.Found? {
        NotBefore(mem, address, good, n);
      }
    }
    assert scan.Found? && StringStatus(mem, address, ARG_MAX, direct) > 0 <==> scan.Found? && EndsAfter(mem, address, good, direct);
  }

  lemma NotBefore(mem: Memory, address: nat, n: nat, k: nat)
    requires NoNull(mem, address, k) && address + n in mem && mem[address + n] == 0
    ensures k <= n
  {
    var a := address + n;
    assert a in mem && mem[a] == 0;
  }

  /** The string in the buffer that read_string filled. */
  function StringRead(mem: Memory, address: nat, direct: bool, status: int, tmp: seq<Byte>): (s: Text)
    requires status == StringStatus(mem, address, ARG_MAX, direct) && 0 <= status < ARG_MAX
    requires Holds(mem, address, ARG_MAX, status, tmp)
    ensures StringAt(mem, address, s)
  {
    ScanMeaning(mem, address, ARG_MAX, 0);
    assert tmp[..status] == Peek(mem, address, status);
    assert tmp[..status - 1] == Peek(mem, address, status - 1);
    tmp[..status - 1]
  }

  /** A local copy means what the pointer meant. */
  lemma CachedMeans(mem: Memory, e: Entries, index: nat, s: Text)
    requires index < |e| && e[index].local.None? && e[index].remote != 0 && StringAt(mem, e[index].remote, s)
    ensures forall argv :: Means(mem, e, argv) ==> Means(mem, e[index := e[index].(local := Some(s))], argv)
  {
    var f := e[index := e[index].(local := Some(s))];
    forall argv | Means(mem, e, argv) ensures Means(mem, f, argv) {
      forall i | 0 <= i < |argv| ensures Denotes(mem, f[i], argv[i]) {
        assert Denotes(mem, e[i], argv[i]);
        if i == index {
          StringUnique(mem, e[index].remote, s, argv[i]);
        }
      }
    }
  }

  /** A stopped tracee: its memory and its stack pointer; `ws` is 4 for a 32-bit one. */
  class Tracee {
    const access: TraceeAccess
    const originalSp: nat
    const ws: nat
    var sp: nat

    constructor (a: TraceeAccess, stackPointer: nat, wordSize: nat)
      ensures access == a && originalSp == sp == stackPointer && ws == wordSize
    {
      access, originalSp, sp, ws := a, stackPointer, stackPointer, wordSize;
    }

    /** What lies just below the stack pointer may be in use when nothing was allocated yet. */
    function RedZone(): nat
      reads this
    {
      if sp == originalSp then RED_ZONE else 0
    }

    /** What a push answers: there has to be room for the block below the stack, and memory that can be
        written. */
    ghost function PushStatus(e: Entries): int
      reads this, access
    {
      if forall k :: 0 <= k < |e| ==> e[k].local.None? then 0
      else if sp <= Total(e, ws) + RedZone() then -E2BIG
      else if BlockStorable(access.mem, access.readOnly, access.hasProcessVm, e, ws, sp - Total(e, ws) - RedZone()) then 0
      else -EFAULT
    }

    lemma SamePush(e: Entries, f: Entries)
      requires SameStrings(e, f)
      ensures PushStatus(e) == PushStatus(f) && Total(e, ws) == Total(f, ws)
    {
      SameBlock(e, f, |e|);
      if k :| 0 <= k < |e| && e[k].local.Some? {
        if sp <= Total(e, ws) + RedZone() {
          NoRoom(e, k);
          NoRoom(f, k);
        } else {
          var ptr := sp - Total(e, ws) - RedZone();
          RoomFor(e, k, ptr);
          RoomFor(f, k, ptr);
          SameObstacles(access.mem, access.readOnly, access.hasProcessVm, e, f, ws, ptr);
        }
      } else {
        NothingToPush(e);
        NothingToPush(f);
      }
    }

    lemma NothingToPush(e: Entries)
      requires forall k :: 0 <= k < |e| ==> e[k].local.None?
      ensures PushStatus(e) == 0
    {
    }

    lemma NoRoom(e: Entries, k: nat)
      requires k < |e| && e[k].local.Some? && sp <= Total(e, ws) + RedZone()
      ensures PushStatus(e) == -E2BIG
    {
    }

    lemma RoomFor(e: Entries, k: nat, ptr: nat)
      requires k < |e| && e[k].local.Some? && ptr > 0 && ptr + Total(e, ws) + RedZone() == sp
      ensures PushStatus(e) == if BlockStorable(access.mem, access.readOnly, access.hasProcessVm, e, ws, ptr) then 0 else -EFAULT
    {
    }

    /** Room below the stack pointer, and below the red zone the first time; 0 when there is none. */
    method AllocMem(size: int) returns (ptr: nat)
      requires -0x8000_0000 <= size && sp < 0x1_0000_0000_0000_0000
      modifies this`sp
      ensures var all := size + old(RedZone());
              if (all > 0 && old(sp) <= all) || (all < 0 && old(sp) >= 0xFFFF_FFFF_FFFF_FFFF + all)
              then ptr == 0 && sp == old(sp)
              else ptr == sp == old(sp) - all
    {
      var all := size;
      if sp == originalSp {
        all := all + RED_ZONE;
      }
      if (all > 0 && sp <= all) || (all < 0 && sp >= 0xFFFF_FFFF_FFFF_FFFF + all) {
        return 0;
      }
      sp := sp - all;
      ptr := sp;
    }

    /** Room for the block of an array that was modified. */
    method AllocBlock(size: nat, ghost e: Entries, ghost k: nat) returns (ptr: nat)
      requires k < |e| && e[k].local.Some? && size == Total(e, ws) && sp < 0x1_0000_0000_0000_0000
      modifies this`sp
      ensures ptr == 0 ==> sp == old(sp) && old(PushStatus(e)) == -E2BIG
      ensures ptr != 0 ==>
                && ptr == sp && ptr + size + old(RedZone()) == old(sp)
                && old(PushStatus(e)) == if BlockStorable(access.mem, access.readOnly, access.hasProcessVm, e, ws, ptr) then 0 else -EFAULT
    {
      if sp <= size + RedZone() {
        NoRoom(e, k);
      } else {
        RoomFor(e, k, sp - size - RedZone());
      }
      ptr := AllocMem(size);
    }

    /** writev_data: all the buffers at once if the kernel can, otherwise one after the other. */
    method WritevData(address: nat, parts: seq<seq<Byte>>) returns (status: int)
      modifies access
      ensures status == if PartsStorable(old(access.mem), access.readOnly, access.hasProcessVm, address, parts) then 0 else -EFAULT
      ensures status == 0 ==> Mapped(old(access.mem), address, |Concat(parts)|)
      ensures status == 0 ==> access.mem == Poke(old(access.mem), address, Concat(parts))
      ensures KeptOutside(old(access.mem), access.mem, address, |Concat(parts)|)
    {
      ghost var before := access.mem;
      if access.hasProcessVm {
        var n := access.ProcessVmWritev(address, Concat(parts));
        assert Concat(parts)[..|Concat(parts)|] == Concat(parts);
        if n == |Concat(parts)| {
          WholeStorable(before, access.readOnly, address, parts);
          return 0;
        }
        PokeTwice(before, address, Concat(parts), n);
      }
      status := WriteEach(address, parts, before);
    }

    /** The table and the strings of an array, at once. */
    method WriteBlock(ptr: nat, table: seq<Byte>, buffers: seq<seq<Byte>>, ghost e: Entries) returns (status: int)
      requires table == Table(e, ws, ptr, |e|) && buffers == Buffers(e, |e|)
      modifies access
      ensures status == if BlockStorable(old(access.mem), access.readOnly, access.hasProcessVm, e, ws, ptr) then 0 else -EFAULT
      ensures status == 0 ==>
                Mapped(old(access.mem), ptr, Total(e, ws)) && access.mem == Poke(old(access.mem), ptr, Block(e, ws, ptr))
      ensures KeptOutside(old(access.mem), access.mem, ptr, Total(e, ws))
    {
      ConcatFirst(table, buffers);
      BuffersAreStrings(e, |e|);
      BuffersStorable(access.mem, access.readOnly, access.hasProcessVm, e, ws, ptr, table, |e|,
                      Storable(access.mem, access.readOnly, access.hasProcessVm, ptr, |table|));
      BlockPieces(access.mem, access.readOnly, access.hasProcessVm, e, ws, ptr);
      assert Concat([table] + buffers) == Block(e, ws, ptr);
      status := WritevData(ptr, [table] + buffers);
    }

    method WriteEach(address: nat, parts: seq<seq<Byte>>, ghost before: Memory) returns (status: int)
      requires Poke(access.mem, address, Concat(parts)) == Poke(before, address, Concat(parts))
      requires KeptOutside(before, access.mem, address, |Concat(parts)|)
      modifies access
      ensures status == if PartsStorable(before, access.readOnly, access.hasProcessVm, address, parts) then 0 else -EFAULT
      ensures status == 0 ==> Mapped(before, address, |Concat(parts)|)
      ensures status == 0 ==> access.mem == Poke(before, address, Concat(parts))
      ensures KeptOutside(before, access.mem, address, |Concat(parts)|)
    {
      var size := 0;
      ghost var start := access.mem;
      assert parts[..0] == [];
      assert Poke(start, address, []) == start;
      for i := 0 to |parts|
        invariant size == |Concat(parts[..i])| && Mapped(start, address, size)
        invariant forall k :: 0 <= k < i ==> PartStorable(before, access.readOnly, access.hasProcessVm, address, parts, k)
        invariant access.mem == Poke(start, address, Concat(parts[..i]))
      {
        ghost var mem := access.mem;
        NextPart(parts, i);
        NextStorable(before, mem, access.readOnly, access.hasProcessVm, address, parts, i, size);
        PokeKeepsOutside(before, start, address, Concat(parts[..i]), |Concat(parts)|);
        status := access.WriteData(address + size, parts[i]);
        KeptOutsideMore(before, mem, access.mem, address, |Concat(parts)|, address + size, |parts[i]|);
        if status < 0 {
          AllStorable(before, access.readOnly, access.hasProcessVm, address, parts);
          return;
        }
        PartWritten(start, mem, access.mem, address, parts, i, size);
        size := size + |parts[i]|;
      }
      assert parts[..|parts|] == parts;
      AllStorable(before, access.readOnly, access.hasProcessVm, address, parts);
      PokeKeepsOutside(before, start, address, Concat(parts), |Concat(parts)|);
      status := 0;
    }

    method PeekWord(address: nat) returns (word: nat, ok: bool)
      ensures ok == Mapped(access.mem, address, if access.hasProcessVm then ws else WORD)
      ensures ok && Mapped(access.mem, address, ws) ==> word == WordAt(access.mem, address, ws)
    {
      ok := Mapped(access.mem, address, if access.hasProcessVm then ws else WORD);
      word := if ok && Mapped(access.mem, address, ws) then WordAt(access.mem, address, ws) else 0;
    }
  }

  class ArrayOfXPointers {
    var entries: Entries
    const tracee: Tracee

    constructor (t: Tracee)
      ensures entries == [] && tracee == t
    {
      entries, tracee := [], t;
    }

    /** Copy the pointers at `address`: `nbEntries` of them, or up to the null one when it is 0. */
    method Fetch(address: nat, nbEntries: nat) returns (status: int)
      requires tracee.ws in {4, 8}
      modifies this
      ensures status == 0 || status == -EFAULT
      ensures status == 0 ==> |entries| > 0
      ensures status == 0 ==>
                forall i :: 0 <= i < |entries| ==> WordFetched(tracee.access.mem, address + i * tracee.ws, tracee.ws, entries[i])
      ensures status == 0 && nbEntries != 0 ==> |entries| == nbEntries
      ensures status == 0 && nbEntries == 0 ==>
                Fetched(tracee.access.mem, address, tracee.ws, entries) && entries[|entries| - 1].remote == 0
      ensures nbEntries == 0 ==>
                var all := ArrayAt(tracee.access.mem, address, tracee.ws, tracee.access.hasProcessVm);
                if status == 0 then all == Some(entries) else all.None?
      ensures nbEntries != 0 ==>
                (status == 0 <==> forall i :: 0 <= i < nbEntries ==> Readable(address + i * tracee.ws))
    {
      var pointer, i := 1, 0;
      entries := [];
      while if nbEntries != 0 then i < nbEntries else pointer != 0
        invariant i == |entries| && (nbEntries != 0 ==> i <= nbEntries)
        invariant Misread(tracee.access.mem, address, tracee.ws, tracee.access.hasProcessVm, entries) == {}
        invariant pointer == if i == 0 then 1 else entries[i - 1].remote
        invariant nbEntries == 0 ==> forall k :: 0 <= k < i - 1 ==> entries[k].remote != 0
        decreases |Above(tracee.access.mem, address + i * tracee.ws)|
      {
        var ok;
        pointer, ok := tracee.PeekWord(address + i * tracee.ws);
        if !ok {
          assert !Readable(address + i * tracee.ws);
          if nbEntries == 0 {
            ArrayFaults(tracee.access.mem, address, tracee.ws, tracee.access.hasProcessVm, entries, 0, address);
          }
          return -EFAULT;
        }
        AboveShrinks(tracee.access.mem, address + i * tracee.ws, tracee.ws);
        ReadNext(tracee.access.mem, address, tracee.ws, tracee.access.hasProcessVm, entries, XPointer(pointer, None));
        entries := entries + [XPointer(pointer, None)];
        i := i + 1;
      }
      Complete(address, nbEntries);
      status := 0;
    }

    lemma {:induction false} Complete(address: nat, nbEntries: nat)
      requires 0 < tracee.ws <= WORD && |entries| > 0
      requires Misread(tracee.access.mem, address, tracee.ws, tracee.access.hasProcessVm, entries) == {}
      requires if nbEntries != 0 then |entries| == nbEntries else forall k :: 0 <= k < |entries| ==> (entries[k].remote == 0 <==> k == |entries| - 1)
      ensures forall i :: 0 <= i < |entries| ==> WordFetched(tracee.access.mem, address + i * tracee.ws, tracee.ws, entries[i])
      ensures nbEntries == 0 ==>
                && Fetched(tracee.access.mem, address, tracee.ws, entries)
                && ArrayAt(tracee.access.mem, address, tracee.ws, tracee.access.hasProcessVm) == Some(entries)
      ensures nbEntries != 0 ==> forall i :: 0 <= i < nbEntries ==> Readable(address + i * tracee.ws)
    {
      ReadAt(tracee.access.mem, address, tracee.ws, tracee.access.hasProcessVm, entries);
      if nbEntries == 0 {
        WholeFetched(tracee.access.mem, address, tracee.ws, tracee.access.hasProcessVm, entries);
        ArrayFetched(tracee.access.mem, address, tracee.ws, tracee.access.hasProcessVm, entries, 0, address);
      }
    }

    predicate Readable(address: nat)
      reads tracee, tracee.access
    {
      WordReadable(tracee.access.mem, address, tracee.ws, tracee.access.hasProcessVm)
    }

    /** The string an entry stands for, copied from the tracee the first time. */
    method ReadXpointee(index: nat) returns (status: int, local: Option<Text>)
      requires index < |entries| && ByPages(tracee.access.mem)
      modifies this
      ensures var x := old(entries)[index];
              status == if x.local.Some? || x.remote == 0 then 0
                        else CopyStatus(tracee.access.mem, x.remote, tracee.access.hasProcessVm)
      ensures |entries| == old(|entries|)
      ensures forall k :: 0 <= k < |entries| && k != index ==> entries[k] == old(entries)[k]
      ensures status == 0 ==> local == entries[index].local && entries[index].remote == old(entries)[index].remote
      ensures status != 0 ==> entries == old(entries)
      ensures forall argv :: Means(tracee.access.mem, old(entries), argv) ==> Means(tracee.access.mem, entries, argv)
      ensures status == 0 && old(entries)[index].local.None? ==>
                local == (if old(entries)[index].remote == 0 then None else local)
                && (local.Some? ==> StringAt(tracee.access.mem, old(entries)[index].remote, local.value))
                && (local.None? ==> old(entries)[index].remote == 0)
    {
      var x := entries[index];
      if x.local.Some? {
        return 0, x.local;
      }
      if x.remote == 0 {
        return 0, None;
      }
      var tmp;
      status, tmp := tracee.access.ReadString(x.remote, ARG_MAX);
      if status < 0 {
        return status, None;
      }
      if status >= ARG_MAX {
        return -ENOMEM, None;
      }
      var s := StringRead(tracee.access.mem, x.remote, tracee.access.hasProcessVm, status, tmp);
      entries := entries[index := x.(local := Some(s))];
      CachedMeans(tracee.access.mem, old(entries), index, s);
      return 0, Some(s);
    }

    method WriteXpointee(index: nat, s: Text)
      requires index < |entries|
      modifies this
      ensures entries == old(entries)[index := old(entries)[index].(local := Some(s))]
    {
      entries := entries[index := entries[index].(local := Some(s))];
    }

    /** Open a gap of null entries before `index`, or drop the entries just before it. */
    method Resize(index: nat, delta: int)
      requires index < |entries| && index + delta >= 0
      modifies this
      ensures delta >= 0 ==>
                entries == old(entries)[..index] + seq(delta, _ => XPointer(0, None)) + old(entries)[index..]
      ensures delta < 0 ==> entries == old(entries)[..index + delta] + old(entries)[index..]
    {
      if delta > 0 {
        entries := entries + seq(delta, _ => XPointer(0, None));
        MoveUp(index, delta, old(entries));
        ClearEntries(index, delta);
      } else if delta < 0 {
        MoveDown(index, -delta);
      }
    }

    /** memmove(3) towards the end: the last entry goes first, so that none is overwritten before it is
        moved. */
    method MoveUp(index: nat, delta: nat, ghost before: Entries)
      requires index <= |before| && |entries| == |before| + delta && entries[..|before|] == before
      modifies this
      ensures |entries| == old(|entries|) && entries[..index] == before[..index] && entries[index + delta..] == before[index..]
    {
      var i := |entries| - delta;
      while i > index
        invariant index <= i <= |before| && |entries| == old(|entries|)
        invariant forall k :: 0 <= k < i ==> entries[k] == before[k]
        invariant forall k :: i + delta <= k < |entries| ==> entries[k] == before[k - delta]
      {
        i := i - 1;
        entries := entries[i + delta := entries[i]];
      }
    }

    method ClearEntries(index: nat, n: nat)
      requires index + n <= |entries|
      modifies this
      ensures entries == old(entries)[..index] + seq(n, _ => XPointer(0, None)) + old(entries)[index + n..]
    {
      for i := index to index + n
        invariant |entries| == old(|entries|)
        invariant forall k :: 0 <= k < |entries| ==>
                    entries[k] == if index <= k < i then XPointer(0, None) else old(entries)[k]
      {
        entries := entries[i := XPointer(0, None)];
      }
    }

    /** memmove(3) towards the start, first entry first; then the array is cut. */
    method MoveDown(index: nat, n: nat)
      requires n <= index <= |entries|
      modifies this
      ensures entries == old(entries)[..index - n] + old(entries)[index..]
    {
      for i := index to |entries|
        invariant |entries| == old(|entries|)
        invariant forall k :: 0 <= k < index - n || i - n <= k < |entries| ==> entries[k] == old(entries)[k]
        invariant forall k :: index - n <= k < i - n ==> entries[k] == old(entries)[k + n]
      {
        entries := entries[i - n := entries[i]];
      }
      Shortened(old(entries), entries, index, n);
      entries := entries[..|entries| - n];
    }

    /** One buffer for each modified string, and the size of all with the table; a modified entry is
        left with the place of its string in the block. */
    method Gather() returns (buffers: seq<seq<Byte>>, totalSize: nat)
      modifies this
      ensures buffers == Buffers(old(entries), |old(entries)|)
      ensures Concat(buffers) == Strings(old(entries), |old(entries)|)
      ensures totalSize == Total(old(entries), tracee.ws)
      ensures buffers == [] <==> forall k :: 0 <= k < |old(entries)| ==> old(entries)[k].local.None?
      ensures RelocatedTo(entries, old(entries), old(entries), tracee.ws, 0, |entries|)
    {
      ghost var before := entries;
      buffers, totalSize := [], |entries| * tracee.ws;
      for i := 0 to |entries|
        invariant RelocatedTo(entries, before, before, tracee.ws, 0, i)
        invariant buffers == Buffers(before, i) && totalSize == Offset(before, tracee.ws, i)
      {
        var x := entries[i];
        RelocatedNext(entries, before, before, tracee.ws, 0, i);
        NextOffset(before, tracee.ws, i);
        if x.local.Some? {
          buffers := buffers + [Bytes(x)];
          entries := entries[i := x.(remote := totalSize)];
          totalSize := totalSize + |Bytes(x)|;
        }
      }
      BuffersAreStrings(before, |before|);
      NoBuffers(before, |before|);
    }

    /** The pointers, now that the address of the block is known. */
    method MakeTable(ptr: nat, ghost before: Entries) returns (table: seq<Byte>)
      requires RelocatedTo(entries, before, before, tracee.ws, 0, |entries|)
      modifies this
      ensures table == Table(before, tracee.ws, ptr, |before|)
      ensures RelocatedTo(entries, old(entries), before, tracee.ws, ptr, |before|)
    {
      table := [];
      ghost var gathered := entries;
      for i := 0 to |entries|
        invariant RelocatedTo(entries, gathered, before, tracee.ws, ptr, i)
        invariant table == Table(before, tracee.ws, ptr, i)
      {
        RelocatedNext(entries, gathered, before, tracee.ws, ptr, i);
        RelocatedAt(gathered, before, before, tracee.ws, 0, |before|, i);
        var x := entries[i];
        if x.local.Some? {
          x := x.(remote := x.remote + ptr);
          entries := entries[i := x];
        }
        table := table + Encode(x.remote, tracee.ws);
      }
    }

    /** Write the table and the modified strings below the stack; nothing is written when no entry
        was modified. `pointer` is the new value of the register, or 0 to leave it as it is. The array
        of the tracer ends up with the pointers of the table. */
    method Push() returns (status: int, pointer: nat)
      requires exists i :: 0 <= i < |entries| && entries[i].local.None?
      requires tracee.sp < 0x1_0000_0000_0000_0000
      modifies this, tracee`sp, tracee.access
      ensures status == old(tracee.PushStatus(entries))
      ensures status == 0 && pointer == 0 <==> forall i :: 0 <= i < |old(entries)| ==> old(entries)[i].local.None?
      ensures pointer != 0 ==>
                && status == 0 && pointer == tracee.sp
                && Mapped(old(tracee.access.mem), pointer, Total(old(entries), tracee.ws))
                && pointer + Total(old(entries), tracee.ws) == old(tracee.sp) - old(tracee.RedZone())
                && tracee.access.mem == Poke(old(tracee.access.mem), pointer, Block(old(entries), tracee.ws, pointer))
      ensures |entries| == |old(entries)|
      ensures pointer != 0 ==>
                forall i: nat :: i < |entries| ==> entries[i] == Relocated(old(entries), tracee.ws, pointer, i)
      ensures status != -EFAULT && pointer == 0 ==> tracee.access.mem == old(tracee.access.mem) && tracee.sp == old(tracee.sp)
      ensures KeptAbove(old(tracee.access.mem), tracee.access.mem, old(tracee.sp))
    {
      ghost var before := entries;
      pointer := 0;
      var buffers, totalSize := Gather();
      if buffers == [] {
        return 0, 0;
      }
      status, pointer := PushModified(buffers, totalSize, before);
    }

    /** Allocate the block and fill it in. */
    method PushModified(buffers: seq<seq<Byte>>, totalSize: nat, ghost before: Entries) returns (status: int, pointer: nat)
      requires exists k :: 0 <= k < |before| && before[k].local.Some?
      requires RelocatedTo(entries, before, before, tracee.ws, 0, |entries|)
      requires buffers == Buffers(before, |before|) && totalSize == Total(before, tracee.ws)
      requires tracee.sp < 0x1_0000_0000_0000_0000
      modifies this, tracee`sp, tracee.access
      ensures status == old(tracee.PushStatus(before)) && (status == 0 <==> pointer != 0)
      ensures pointer != 0 ==>
                && pointer == tracee.sp
                && pointer + Total(before, tracee.ws) == old(tracee.sp) - old(tracee.RedZone())
                && Pushed(old(tracee.access.mem), before, pointer)
      ensures |entries| == |before|
      ensures status != -EFAULT && pointer == 0 ==> tracee.access.mem == old(tracee.access.mem) && tracee.sp == old(tracee.sp)
      ensures KeptAbove(old(tracee.access.mem), tracee.access.mem, old(tracee.sp))
    {
      ghost var k: nat :| k < |before| && before[k].local.Some?;
      ghost var mem, sp := tracee.access.mem, tracee.sp;
      pointer := 0;
      var ptr := tracee.AllocBlock(totalSize, before, k);
      if ptr == 0 {
        return -E2BIG, 0;
      }
      status := FillBlock(ptr, buffers, before);
      BelowIsKept(mem, tracee.access.mem, ptr, totalSize, sp);
      if status == 0 {
        pointer := ptr;
      }
    }

    method FillBlock(ptr: nat, buffers: seq<seq<Byte>>, ghost before: Entries) returns (status: int)
      requires RelocatedTo(entries, before, before, tracee.ws, 0, |entries|) && buffers == Buffers(before, |before|)
      modifies this, tracee.access
      ensures status == if BlockStorable(old(tracee.access.mem), tracee.access.readOnly, tracee.access.hasProcessVm, before, tracee.ws, ptr)
                        then 0 else -EFAULT
      ensures status == 0 ==> Pushed(old(tracee.access.mem), before, ptr)
      ensures KeptOutside(old(tracee.access.mem), tracee.access.mem, ptr, Total(before, tracee.ws))
      ensures |entries| == |before|
    {
      ghost var gathered := entries;
      var table := MakeTable(ptr, before);
      forall i: nat | i < |entries| ensures entries[i] == Relocated(before, tracee.ws, ptr, i) {
        RelocatedAt(entries, gathered, before, tracee.ws, ptr, |before|, i);
      }
      status := tracee.WriteBlock(ptr, table, buffers, before);
    }

    /** The block of an array is in memory, and the entries are the pointers of its table. */
    ghost predicate Pushed(mem: Memory, before: Entries, ptr: nat)
      reads this, tracee, tracee.access
    {
      && Mapped(mem, ptr, Total(before, tracee.ws))
      && tracee.access.mem == Poke(mem, ptr, Block(before, tracee.ws, ptr))
      && |entries| == |before|
      && forall i: nat :: i < |entries| ==> entries[i] == Relocated(before, tracee.ws, ptr, i)
    }
  }

  lemma BelowIsKept(mem: Memory, mem': Memory, ptr: nat, size: nat, sp: nat)
    requires KeptOutside(mem, mem', ptr, size) && ptr + size <= sp
    ensures KeptAbove(mem, mem', sp)
  {
  }

  lemma Shortened(e: Entries, f: Entries, index: nat, n: nat)
    requires n <= index <= |e| == |f|
    requires forall k :: 0 <= k < index - n ==> f[k] == e[k]
    requires forall k :: index - n <= k < |e| - n ==> f[k] == e[k + n]
    ensures f[..|f| - n] == e[..index - n] + e[index..]
  {
  }

  /** The first `n` of these entries are those of `e` with the addresses of their strings in a block;
      the others are still those of `first`. */
  ghost predicate RelocatedTo(now: Entries, first: Entries, e: Entries, ws: nat, ptr: nat, n: nat) {
    |now| == |first| == |e| && n <= |e| && Elsewhere(now, first, e, ws, ptr, n) == {}
  }

  ghost function Elsewhere(now: Entries, first: Entries, e: Entries, ws: nat, ptr: nat, n: nat): set<nat>
    requires |now| == |first| == |e|
  {
    set k | 0 <= k < |now| && now[k] != if k < n then Relocated(e, ws, ptr, k) else first[k]
  }

  lemma RelocatedAt(now: Entries, first: Entries, e: Entries, ws: nat, ptr: nat, n: nat, k: nat)
    requires RelocatedTo(now, first, e, ws, ptr, n) && k < |now|
    ensures now[k] == if k < n then Relocated(e, ws, ptr, k) else first[k]
  {
    assert k !in Elsewhere(now, first, e, ws, ptr, n);
  }

  lemma RelocatedNext(now: Entries, first: Entries, e: Entries, ws: nat, ptr: nat, i: nat)
    requires RelocatedTo(now, first, e, ws, ptr, i) && i < |now|
    ensures now[i] == first[i]
    ensures RelocatedTo(now[i := Relocated(e, ws, ptr, i)], first, e, ws, ptr, i + 1)
    ensures first[i] == Relocated(e, ws, ptr, i) ==> now[i := Relocated(e, ws, ptr, i)] == now
  {
    RelocatedAt(now, first, e, ws, ptr, i, i);
    var next := now[i := Relocated(e, ws, ptr, i)];
    forall k: nat | k < |next| ensures next[k] == if k < i + 1 then Relocated(e, ws, ptr, k) else first[k] {
      RelocatedAt(now, first, e, ws, ptr, i, k);
    }
  }

  lemma NextOffset(e: Entries, ws: nat, i: nat)
    requires i < |e|
    ensures Offset(e, ws, i + 1) == Offset(e, ws, i) + |Bytes(e[i])|
    ensures Strings(e, i + 1) == Strings(e, i) + Bytes(e[i])
  {
  }

  /** An entry with the address of its string in a block, when the tracer holds it. */
  function Relocated(e: Entries, ws: nat, ptr: nat, i: nat): XPointer
    requires i < |e|
  {
    e[i].(remote := Remote(e, ws, ptr, i))
  }

  /** The stack in use is left alone. */
  ghost predicate KeptAbove(mem: Memory, mem': Memory, sp: nat) {
    mem'.Keys == mem.Keys && forall a :: a in mem && sp <= a ==> mem'[a] == mem[a]
  }
}
