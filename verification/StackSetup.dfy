/** The command line on its way to a new process's stack (userprog/process.c, and strtok_r of
    lib/string.c). */
module StackSetup {
  import opened Options
  import opened Sequences
  import opened Bytes

  const SPACE: Byte := 32

  /** The words of a command line: what is left between its spaces. */
  function Words(s: seq<Byte>): seq<seq<Byte>>
    decreases |s|
  {
    if s == [] then []
    else if s[0] == SPACE then Words(s[1..])
    else [s[..WordEnd(s)]] + Words(s[WordEnd(s)..])
  }

  /** Where the first space is, or the end. */
  function WordEnd(s: seq<Byte>): (n: nat)
    ensures n <= |s| && (s != [] && s[0] != SPACE ==> n > 0)
  {
    if s == [] || s[0] == SPACE then 0 else 1 + WordEnd(s[1..])
  }

  lemma {:induction false} WordEndIs(s: seq<Byte>, n: nat)
    requires n <= |s| && (forall i | 0 <= i < n :: s[i] != SPACE) && (n < |s| ==> s[n] == SPACE)
    ensures WordEnd(s) == n
  {
    if n > 0 {
      assert forall i | 0 <= i < n - 1 :: s[1..][i] == s[i + 1];
      WordEndIs(s[1..], n - 1);
    }
  }

  lemma {:induction false} SkipSpaces(s: seq<Byte>, n: nat)
    requires n <= |s| && forall i | 0 <= i < n :: s[i] == SPACE
    ensures Words(s) == Words(s[n..])
  {
    if n > 0 {
      assert forall i | 0 <= i < n - 1 :: s[1..][i] == s[i + 1];
      SkipSpaces(s[1..], n - 1);
      assert s[1..][n - 1..] == s[n..];
    } else {
      assert s[0..] == s;
    }
  }

  /** Words with the text between them: `gaps` has one in front of each word and one behind the last. */
  function Interleaved(gaps: seq<seq<Byte>>, words: seq<seq<Byte>>): seq<Byte>
    requires |gaps| == |words| + 1
  {
    gaps[0] + if words == [] then [] else words[0] + Interleaved(gaps[1..], words[1..])
  }

  predicate Blank(s: seq<Byte>) {
    forall i | 0 <= i < |s| :: s[i] == SPACE
  }

  predicate IsWord(w: seq<Byte>) {
    w != [] && SPACE !in w
  }

  /** Words set apart by spaces, however many, are found again, and nothing else is. */
  lemma {:induction false} WordsFound(gaps: seq<seq<Byte>>, words: seq<seq<Byte>>)
    requires |gaps| == |words| + 1 && (forall k | 0 <= k < |gaps| :: Blank(gaps[k]))
    requires (forall k | 0 < k < |words| :: gaps[k] != []) && forall k | 0 <= k < |words| :: IsWord(words[k])
    ensures Words(Interleaved(gaps, words)) == words
    decreases |words|
  {
    var s := Interleaved(gaps, words);
    SkipSpaces(s, |gaps[0]|);
    if words == [] {
      assert s == gaps[0] && s[|gaps[0]|..] == [];
    } else {
      var rest := Interleaved(gaps[1..], words[1..]);
      var t := words[0] + rest;
      assert s[|gaps[0]|..] == t;
      assert rest != [] ==> rest[0] == SPACE by {
        assert words[1..] != [] ==> gaps[1] != [];
      }
      WordEndIs(t, |words[0]|);
      assert t[..|words[0]|] == words[0] && t[|words[0]|..] == rest && t[0] == words[0][0];
      assert forall k | 0 <= k < |gaps[1..]| :: Blank(gaps[1..][k]);
      WordsFound(gaps[1..], words[1..]);
    }
  }

  /** Every text is such a row of words and spaces. */
  lemma {:induction false} TextIsWords(s: seq<Byte>) returns (gaps: seq<seq<Byte>>)
    ensures |gaps| == |Words(s)| + 1 && Interleaved(gaps, Words(s)) == s
    ensures (forall k | 0 <= k < |gaps| :: Blank(gaps[k])) && (forall k | 0 < k < |Words(s)| :: gaps[k] != [])
    ensures forall k | 0 <= k < |Words(s)| :: IsWord(Words(s)[k])
    decreases |s|
  {
    if s == [] {
      gaps := [[]];
    } else if s[0] == SPACE {
      var g := TextIsWords(s[1..]);
      gaps := g[0 := [SPACE] + g[0]];
      assert gaps[1..] == g[1..];
      assert s == [SPACE] + s[1..];
    } else {
      var n := WordEnd(s);
      WordEndMeans(s);
      var g := TextIsWords(s[n..]);
      gaps := [[]] + g;
      var words := Words(s);
      assert words[1..] == Words(s[n..]) && gaps[1..] == g;
      assert s == s[..n] + s[n..];
      if |words| > 1 {
        assert s[n..] != [] && s[n] == SPACE;
        FirstGap(g, words[1..], s[n..]);
      }
    }
  }

  lemma {:induction false} WordEndMeans(s: seq<Byte>)
    ensures var n := WordEnd(s); (forall i | 0 <= i < n :: s[i] != SPACE) && (n < |s| ==> s[n] == SPACE)
  {
    if s != [] && s[0] != SPACE {
      WordEndMeans(s[1..]);
      assert forall i | 0 < i < |s| :: s[i] == s[1..][i - 1];
    }
  }

  lemma FirstGap(gaps: seq<seq<Byte>>, words: seq<seq<Byte>>, s: seq<Byte>)
    requires |gaps| == |words| + 1 && words != [] && IsWord(words[0]) && Interleaved(gaps, words) == s
    ensures s != [] && (gaps[0] == [] ==> s[0] != SPACE)
  {
    assert s[0] == if gaps[0] == [] then words[0][0] else gaps[0][0];
  }

  /** The text still to be split: from `at` up to the null byte at `end`. */
  predicate Left(buf: seq<Byte>, at: nat, end: nat) {
    at <= end < |buf| && buf[end] == 0 && forall i | at <= i < end :: buf[i] != 0
  }

  /** strtok_r with " ": the next word, ended by a null byte, or none; `end` is where the string
      ends, and `save` where the next call goes on. */
  method NextToken(buf: array<Byte>, start: nat, ghost end: nat) returns (token: Option<nat>, save: nat)
    requires Left(buf[..], start, end)
    modifies buf
    ensures start <= save && Left(buf[..], save, end)
    ensures forall k | 0 <= k < start || end <= k < buf.Length :: buf[k] == old(buf[k])
    ensures match token
      case None => Words(old(buf[start..end])) == [] && save == end
      case Some(t) =>
        exists w :: Words(old(buf[start..end])) == [w] + Words(buf[save..end])
             && TokenAt(buf[..], start, t, w, save, end)
  {
    hide Words, WordEnd, StringAt;
    ghost var line := buf[start..end];
    ghost var was := buf[..];
    var s := start;
    while buf[s] == SPACE || buf[s] == 0
      invariant start <= s <= end && (forall i | start <= i < s :: buf[i] == SPACE) && buf[..] == was
      decreases end - s
    {
      if buf[s] == 0 {
        OnlySpaces(line);
        return None, s;
      }
      s := s + 1;
    }
    var t := s;
    while !(buf[s] == SPACE || buf[s] == 0)
      invariant start <= t <= s <= end && buf[..] == was
      invariant forall i | t <= i < s :: buf[i] != SPACE && buf[i] != 0
      invariant s == t ==> buf[s] != SPACE && buf[s] != 0
      decreases end - s
    {
      s := s + 1;
    }
    if buf[s] != 0 {
      buf[s] := 0;
      save := s + 1;
    } else {
      save := s;
    }
    token := Some(t);
    TokenFound(was, buf[..], start, t, s, end, save);
  }

  /** The word between the spaces, with a null byte put behind it. */
  lemma TokenFound(was: seq<Byte>, now: seq<Byte>, start: nat, t: nat, s: nat, end: nat, save: nat)
    requires Left(was, start, end) && start <= t < s <= end
    requires forall i | start <= i < t :: was[i] == SPACE
    requires forall i | t <= i < s :: was[i] != SPACE && was[i] != 0
    requires was[s] == SPACE || was[s] == 0
    requires now == was[s := 0] && save == if was[s] == 0 then s else s + 1
    ensures save <= end && Words(was[start..end]) == [was[t..s]] + Words(now[save..end])
    ensures TokenAt(now, start, t, was[t..s], save, end) && Left(now, save, end)
  {
    hide Words;
    var line := was[start..end];
    FirstWord(line, t - start, s - start);
    SliceOfSlice(was, start, end, t - start, s - start);
    SliceOfSlice(was, start, end, s - start, end - start);
    assert line[s - start..] == was[s..end];
    assert now[t..s] == was[t..s];
    if was[s] == 0 {
      assert line[s - start..] == now[save..end];
    } else {
      SkipSpaces(line[s - start..], 1);
      assert line[s - start..][1..] == now[save..end];
    }
  }

  /** Word `w` stands at `t`, between `start` and `save`, or at the very end. */
  predicate TokenAt(buf: seq<Byte>, start: nat, t: nat, w: seq<Byte>, save: nat, end: nat) {
    StringAt(buf, t, w) && start <= t < t + |w| && (t + |w| < save || t + |w| == save == end)
  }

  lemma OnlySpaces(s: seq<Byte>)
    requires forall i | 0 <= i < |s| :: s[i] == SPACE
    ensures Words(s) == []
  {
    SkipSpaces(s, |s|);
  }

  lemma FirstWord(line: seq<Byte>, a: nat, b: nat)
    requires a < b <= |line| && (forall i | 0 <= i < a :: line[i] == SPACE)
    requires (forall i | a <= i < b :: line[i] != SPACE) && (b < |line| ==> line[b] == SPACE)
    ensures Words(line) == [line[a..b]] + Words(line[b..])
  {
    SkipSpaces(line, a);
    var s := line[a..];
    assert forall i | 0 <= i < b - a :: s[i] == line[a + i];
    WordEndIs(s, b - a);
    assert s[..b - a] == line[a..b] && s[b - a..] == line[b..];
  }

  /** Each argument is where it should be, and later calls of strtok_r will not touch it. */
  ghost predicate ArgsAt(buf: seq<Byte>, argv: seq<nat>, words: seq<seq<Byte>>, save: nat, end: nat) {
    |argv| == |words| && forall i | 0 <= i < |argv| :: TokenAt(buf, 0, argv[i], words[i], save, end)
  }

  /** set_argv: the arguments are the words of the command line, each a string in the buffer. */
  method SetArgv(buf: array<Byte>, ghost end: nat) returns (argv: seq<nat>)
    requires Left(buf[..], 0, end)
    modifies buf
    ensures |argv| == |Words(old(buf[..end]))|
    ensures forall i | 0 <= i < |argv| :: StringAt(buf[..], argv[i], Words(old(buf[..end]))[i])
  {
    hide Words, StringAt;
    ghost var all := Words(buf[..end]);
    ghost var done: seq<seq<Byte>> := [];
    argv := [];
    assert buf[..end] == buf[0..end];
    var save := 0;
    while true
      invariant Left(buf[..], save, end)
      invariant all == done + Words(buf[save..end])
      invariant ArgsAt(buf[..], argv, done, save, end)
      decreases end - save
    {
      ghost var before, at := buf[..], save;
      var token;
      token, save := NextToken(buf, save, end);
      if token == None {
        ArgsStay(before, buf[..], argv, done, at, save, end);
        break;
      }
      ghost var w :| Words(before[at..end]) == [w] + Words(buf[save..end])
        && TokenAt(buf[..], at, token.value, w, save, end);
      ArgsStay(before, buf[..], argv, done, at, save, end);
      argv := argv + [token.value];
      done := done + [w];
    }
  }

  lemma ArgsStay(before: seq<Byte>, after: seq<Byte>, argv: seq<nat>, words: seq<seq<Byte>>, at: nat,
                 save: nat, end: nat)
    requires ArgsAt(before, argv, words, at, end) && at <= save && |before| == |after| && at <= end < |before|
    requires forall k | 0 <= k < at || end <= k < |before| :: after[k] == before[k]
    ensures ArgsAt(after, argv, words, save, end)
  {
    forall i | 0 <= i < |argv| ensures TokenAt(after, 0, argv[i], words[i], save, end) {
      assert TokenAt(before, 0, argv[i], words[i], at, end);
      var t, w := argv[i], words[i];
      assert before[t..t + |w|] == after[t..t + |w|];
    }
  }

  // ---- set_stack ----

  /** The page under PHYS_BASE, by the address of its first byte. */
  const PAGE_BASE: nat := 0xBFFF_F000
  const PAGE: nat := 4096

  /** Bytes taken by the strings from number `i` on, null bytes included. */
  function StringBytes(argv: seq<seq<Byte>>, i: nat): nat
    decreases |argv| - i
  {
    if i >= |argv| then 0 else |argv[i]| + 1 + StringBytes(argv, i + 1)
  }

  function Padding(n: nat): nat { if n % 4 == 0 then 0 else 4 - n % 4 }

  /** All that set_stack puts on the stack. */
  function StackBytes(argv: seq<seq<Byte>>): nat {
    StringBytes(argv, 0) + Padding(StringBytes(argv, 0)) + 4 * (|argv| + 1) + 12
  }

  /** memcpy of a string to just below `esp` */
  method PushString(mem: array<Byte>, esp: nat, s: seq<Byte>) returns (to: nat)
    requires |s| + 1 <= esp <= mem.Length && NoNulls(s)
    modifies mem
    ensures to == esp - (|s| + 1) && StringAt(mem[..], to, s) && mem[esp..] == old(mem[esp..])
  {
    to := esp - (|s| + 1);
    forall i | 0 <= i <= |s| {
      mem[to + i] := if i < |s| then s[i] else 0;
    }
    assert mem[..][to..to + |s|] == s;
    assert mem[..][to + |s|] == 0;
  }

  method PushWord(mem: array<Byte>, esp: nat, v: nat) returns (to: nat)
    requires 4 <= esp <= mem.Length && v < 0x1_0000_0000
    modifies mem
    ensures to == esp - 4 && LoadWord(mem[..], to) == v && mem[esp..] == old(mem[esp..])
  {
    hide LoadWord;
    to := esp - 4;
    var bytes := WordBytes(v);
    forall i | 0 <= i < 4 {
      mem[to + i] := bytes[i];
    }
    assert mem[..][to..to + 4] == bytes;
    WordRoundTrip(mem[..], to, v);
  }

  /** The strings from number `i` on, where `address` says they are, none below `esp`. */
  ghost predicate StringsAt(m: seq<Byte>, argv: seq<seq<Byte>>, address: seq<nat>, i: nat, esp: nat) {
    |address| == |argv| && forall k | i <= k < |argv| :: esp <= address[k] && StringAt(m, address[k], argv[k])
  }

  lemma StringsStay(m: seq<Byte>, m': seq<Byte>, argv: seq<seq<Byte>>, address: seq<nat>, i: nat, esp: nat, low: nat)
    requires StringsAt(m, argv, address, i, esp) && |m| == |m'| && low <= esp <= |m| && m[esp..] == m'[esp..]
    ensures StringsAt(m', argv, address, i, low)
  {
    hide StringAt;
    forall k | i <= k < |argv| ensures StringAt(m', address[k], argv[k]) {
      StringFromTail(m, m', esp, address[k], argv[k]);
    }
  }

  /** The pointers from number `i` on, in order, from `esp` up, and the null pointer after them. */
  ghost predicate PointersAt(m: seq<Byte>, address: seq<nat>, i: nat, esp: nat) {
    && i <= |address| && esp + 4 * (|address| - i) + 4 <= |m|
    && (forall k | i <= k < |address| :: LoadWord(m, esp + 4 * (k - i)) == PAGE_BASE + address[k])
    && LoadWord(m, esp + 4 * (|address| - i)) == 0
  }

  lemma PointerAdded(m: seq<Byte>, m': seq<Byte>, address: seq<nat>, i: nat, esp: nat)
    requires i > 0 && PointersAt(m, address, i, esp) && |m| == |m'| && 4 <= esp && m[esp..] == m'[esp..]
    requires LoadWord(m', esp - 4) == PAGE_BASE + address[i - 1]
    ensures PointersAt(m', address, i - 1, esp - 4)
  {
    hide LoadWord;
    forall k | i <= k < |address| ensures LoadWord(m', esp - 4 + 4 * (k - (i - 1))) == PAGE_BASE + address[k] {
      LoadFromTail(m, m', esp, esp + 4 * (k - i));
      assert esp - 4 + 4 * (k - (i - 1)) == esp + 4 * (k - i);
    }
    LoadFromTail(m, m', esp, esp + 4 * (|address| - i));
    assert esp - 4 + 4 * (|address| - (i - 1)) == esp + 4 * (|address| - i);
  }

  lemma PointersStay(m: seq<Byte>, m': seq<Byte>, address: seq<nat>, i: nat, esp: nat, from: nat)
    requires PointersAt(m, address, i, esp) && |m| == |m'| && from <= esp && m[from..] == m'[from..]
    ensures PointersAt(m', address, i, esp)
  {
    hide LoadWord;
    forall k | i <= k < |address| ensures LoadWord(m', esp + 4 * (k - i)) == PAGE_BASE + address[k] {
      LoadFromTail(m, m', from, esp + 4 * (k - i));
    }
    LoadFromTail(m, m', from, esp + 4 * (|address| - i));
  }

  /** What a program reads from its stack: a null return address, argc, argv, and through argv the
      strings and a final null pointer. */
  ghost predicate ReadsBack(m: seq<Byte>, esp: nat, argv: seq<seq<Byte>>) {
    && esp % 4 == 0 && esp + 16 + 4 * |argv| <= |m| == PAGE
    && LoadWord(m, esp) == 0
    && LoadWord(m, esp + 4) == |argv|
    && var table := LoadWord(m, esp + 8);
       && PAGE_BASE <= table && (table - PAGE_BASE) + 4 * |argv| + 4 <= |m|
       && LoadWord(m, table - PAGE_BASE + 4 * |argv|) == 0
       && forall k | 0 <= k < |argv| :: ArgumentAt(m, table - PAGE_BASE + 4 * k, argv[k])
  }

  ghost predicate ArgumentAt(m: seq<Byte>, at: nat, s: seq<Byte>) {
    at + 4 <= |m| && LoadWord(m, at) >= PAGE_BASE && StringAt(m, LoadWord(m, at) - PAGE_BASE, s)
  }

  lemma StringsFit(argv: seq<seq<Byte>>, i: nat)
    requires i < |argv|
    ensures StringBytes(argv, i) == |argv[i]| + 1 + StringBytes(argv, i + 1)
    ensures StringBytes(argv, i) <= StringBytes(argv, 0)
  {
    Longer(argv, 0, i);
  }

  lemma {:induction false} Longer(argv: seq<seq<Byte>>, j: nat, i: nat)
    requires j <= i
    ensures StringBytes(argv, i) <= StringBytes(argv, j)
    decreases i - j
  {
    if j < i {
      Longer(argv, j + 1, i);
    }
  }

  /** The strings, the last one first. */
  method PushStrings(mem: array<Byte>, argv: seq<seq<Byte>>) returns (esp: nat, address: seq<nat>)
    requires mem.Length == PAGE && StringBytes(argv, 0) <= PAGE && forall k | 0 <= k < |argv| :: NoNulls(argv[k])
    modifies mem
    ensures esp == PAGE - StringBytes(argv, 0) && StringsAt(mem[..], argv, address, 0, esp)
    ensures forall k | 0 <= k < |address| :: address[k] < PAGE
  {
    hide StringAt, StringBytes, NoNulls;
    EmptyStrings(argv);
    esp, address := PAGE, seq(|argv|, i => 0);
    var i: nat := |argv|;
    while i > 0
      invariant i <= |argv| == |address| && esp == PAGE - StringBytes(argv, i) && esp <= PAGE
      invariant StringsAt(mem[..], argv, address, i, esp)
      invariant forall k | 0 <= k < |address| :: address[k] < PAGE
    {
      i := i - 1;
      StringsFit(argv, i);
      ghost var before, was := mem[..], esp;
      esp := PushString(mem, esp, argv[i]);
      StringsStay(before, mem[..], argv, address, i + 1, was, esp);
      address := address[i := esp];
    }
  }

  lemma EmptyStrings(argv: seq<seq<Byte>>)
    ensures StringBytes(argv, |argv|) == 0
  {
  }

  /** The pointers, the last one first, below a null pointer. */
  method PushPointers(mem: array<Byte>, top: nat, address: seq<nat>, ghost argv: seq<seq<Byte>>) returns (esp: nat)
    requires mem.Length == PAGE && 4 * (|address| + 1) <= top <= PAGE && StringsAt(mem[..], argv, address, 0, top)
    requires forall k | 0 <= k < |address| :: address[k] < PAGE
    modifies mem
    ensures esp == top - 4 * (|address| + 1) && PointersAt(mem[..], address, 0, esp)
    ensures StringsAt(mem[..], argv, address, 0, esp)
  {
    hide LoadWord, StringAt;
    ghost var before := mem[..];
    esp := PushWord(mem, top, 0);
    StringsStay(before, mem[..], argv, address, 0, top, esp);
    var i: nat := |address|;
    while i > 0
      invariant i <= |address| && esp == top - 4 * (|address| - i + 1)
      invariant PointersAt(mem[..], address, i, esp) && StringsAt(mem[..], argv, address, 0, esp)
    {
      ghost var was, low := mem[..], esp;
      i := i - 1;
      esp := PushWord(mem, esp, PAGE_BASE + address[i]);
      PointerAdded(was, mem[..], address, i + 1, low);
      StringsStay(was, mem[..], argv, address, 0, low, esp);
    }
  }

  /** set_stack: everything comes back, from a stack pointer that is a multiple of 4. */
  method SetStack(mem: array<Byte>, argv: seq<seq<Byte>>) returns (esp: nat)
    requires mem.Length == PAGE && StackBytes(argv) <= PAGE && forall k | 0 <= k < |argv| :: NoNulls(argv[k])
    modifies mem
    ensures esp == PAGE - StackBytes(argv) && ReadsBack(mem[..], esp, argv)
  {
    hide LoadWord, StringAt, StringBytes, PointersAt, ReadsBack, NoNulls, StringsAt;
    var address;
    esp, address := PushStrings(mem, argv);
    SameLength(mem[..], argv, address, esp);
    var memUse := PAGE - esp;
    var wordAlign := if memUse % 4 != 0 then 4 - memUse % 4 else 0;
    StringsStay(mem[..], mem[..], argv, address, 0, esp, esp - wordAlign);
    esp := esp - wordAlign;
    esp := PushPointers(mem, esp, address, argv);
    ghost var m0 := mem[..];
    var table := esp;
    esp := PushWord(mem, esp, PAGE_BASE + table);
    ghost var m1 := mem[..];
    esp := PushWord(mem, esp, |argv|);
    ghost var m2 := mem[..];
    esp := PushWord(mem, esp, 0);
    ThreeWords(m0, m1, m2, mem[..], argv, address, table);
    AllReadsBack(mem[..], argv, address, esp);
  }

  lemma SameLength(m: seq<Byte>, argv: seq<seq<Byte>>, address: seq<nat>, esp: nat)
    requires StringsAt(m, argv, address, 0, esp)
    ensures |address| == |argv|
  {
  }

  /** The last three words leave what is above them alone. */
  lemma ThreeWords(m0: seq<Byte>, m1: seq<Byte>, m2: seq<Byte>, m3: seq<Byte>, argv: seq<seq<Byte>>, address: seq<nat>,
                   table: nat)
    requires |m0| == |m1| == |m2| == |m3| && 12 <= table <= |m0|
    requires m0[table..] == m1[table..] && m1[table - 4..] == m2[table - 4..] && m2[table - 8..] == m3[table - 8..]
    requires PointersAt(m0, address, 0, table) && StringsAt(m0, argv, address, 0, table)
    requires LoadWord(m1, table - 4) == PAGE_BASE + table && LoadWord(m2, table - 8) == |argv|
    ensures PointersAt(m3, address, 0, table) && StringsAt(m3, argv, address, 0, table)
    ensures LoadWord(m3, table - 4) == PAGE_BASE + table && LoadWord(m3, table - 8) == |argv|
  {
    hide LoadWord, StringsAt, PointersAt;
    assert m1[table..] == m1[table - 4..][4..] == m2[table - 4..][4..] == m2[table..];
    assert m2[table - 4..] == m2[table - 8..][4..] == m3[table - 8..][4..] == m3[table - 4..];
    assert m2[table..] == m2[table - 8..][8..] == m3[table - 8..][8..] == m3[table..];
    PointersStay(m0, m3, address, 0, table, table);
    StringsStay(m0, m3, argv, address, 0, table, table);
    LoadFromTail(m1, m2, table - 4, table - 4);
    LoadFromTail(m2, m3, table - 4, table - 4);
    LoadFromTail(m2, m3, table - 8, table - 8);
  }

  lemma AllReadsBack(m: seq<Byte>, argv: seq<seq<Byte>>, address: seq<nat>, esp: nat)
    requires |m| == PAGE && esp % 4 == 0 && |address| == |argv|
    requires PointersAt(m, address, 0, esp + 12) && StringsAt(m, argv, address, 0, esp + 12)
    requires LoadWord(m, esp) == 0 && LoadWord(m, esp + 4) == |argv| && LoadWord(m, esp + 8) == PAGE_BASE + (esp + 12)
    ensures ReadsBack(m, esp, argv)
  {
    hide LoadWord, StringAt;
    forall k | 0 <= k < |argv| ensures ArgumentAt(m, esp + 12 + 4 * k, argv[k]) {
      assert LoadWord(m, esp + 12 + 4 * (k - 0)) == PAGE_BASE + address[k];
    }
  }

  /** From the command line to the stack: what is read back are its words, and it is the only
      reading there is. */
  lemma ReadingIsUnique(m: seq<Byte>, esp: nat, argv: seq<seq<Byte>>, argv': seq<seq<Byte>>)
    requires ReadsBack(m, esp, argv) && ReadsBack(m, esp, argv')
    ensures argv == argv'
  {
    hide LoadWord, StringAt;
    forall k | 0 <= k < |argv| ensures argv[k] == argv'[k] {
      var at := LoadWord(m, esp + 8) - PAGE_BASE + 4 * k;
      assert ArgumentAt(m, at, argv[k]) && ArgumentAt(m, at, argv'[k]);
      StringUnique(m, LoadWord(m, at) - PAGE_BASE, argv[k], argv'[k]);
    }
  }

  /** strlen, and the string it measures */
  method CopyString(buf: array<Byte>, at: nat, ghost s: seq<Byte>) returns (r: seq<Byte>)
    requires StringAt(buf[..], at, s)
    ensures r == s
  {
    var n := 0;
    while buf[at + n] != 0
      invariant n <= |s| && forall i | 0 <= i < n :: buf[at + i] == s[i]
      invariant buf[at + n] == if n < |s| then s[n] else 0
      decreases |s| - n
    {
      assert n < |s|;
      n := n + 1;
      assert n < |s| ==> buf[at + n] == buf[..][at..at + |s|][n];
    }
    r := buf[at..at + n];
  }

  /** load's last two steps: a program started with a command line of at most 128 words, if they
      fit the page, reads back exactly those words. */
  method SetUpArguments(buf: array<Byte>, ghost end: nat, mem: array<Byte>) returns (esp: nat)
    requires Left(buf[..], 0, end) && buf != mem && mem.Length == PAGE
    requires |Words(buf[..end])| <= 128 && StackBytes(Words(buf[..end])) <= PAGE
    modifies buf, mem
    ensures ReadsBack(mem[..], esp, Words(old(buf[..end])))
  {
    hide Words, StringAt, StackBytes, ReadsBack;
    ghost var words := Words(buf[..end]);
    var argv := SetArgv(buf, end);
    var strings: seq<seq<Byte>> := [];
    ghost var m := buf[..];
    for i := 0 to |argv|
      invariant |strings| == i && forall k | 0 <= k < i :: strings[k] == words[k]
      invariant buf[..] == m
    {
      var s := CopyString(buf, argv[i], words[i]);
      strings := strings + [s];
    }
    assert strings == words;
    forall k | 0 <= k < |strings| ensures NoNulls(strings[k]) {
      StringHasNoNulls(buf[..], argv[k], strings[k]);
    }
    esp := SetStack(mem, strings);
  }

  lemma StringHasNoNulls(m: seq<Byte>, at: nat, s: seq<Byte>)
    requires StringAt(m, at, s)
    ensures NoNulls(s)
  {
  }
}
