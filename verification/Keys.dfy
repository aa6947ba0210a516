/** The hash keys and comparators of the profiler's tables.

    Run-time settings are constants of unknown value: `REPORT_STACK_DEPTH` is the traceback depth asked
    for, `FULL_STACK_DEPTH` the number of frames every record has.
*/
module Keys {
  import opened Powers

  const REPORT_STACK_DEPTH: nat
  const FULL_STACK_DEPTH: nat

  /** An address; 0 is NULL. */
  type Pc = p: int | 0 <= p < 0x1_0000_0000_0000_0000

  /** The program counters of a record, one per frame. */
  type Stack = s: seq<Pc> | |s| == FULL_STACK_DEPTH witness seq(FULL_STACK_DEPTH, _ => 0)

  /** A 32-bit word, lowest bit first. */
  type Bits = b: seq<bool> | |b| == 32 witness seq(32, _ => false)

  /** The low 32 bits of a C integer, in two's complement. */
  function Word(x: int): Bits {
    seq(32, i requires 0 <= i < 32 => (x / Pow2(i)) % 2 == 1)
  }

  /** The word as an unsigned int. */
  function ToNat(b: seq<bool>): nat {
    if b == [] then 0 else (if b[0] then 1 else 0) + 2 * ToNat(b[1..])
  }

  /** Its binary digits are those of the word. */
  lemma {:induction false} ToNatBits(b: seq<bool>, j: nat)
    requires j < |b|
    ensures (ToNat(b) / Pow2(j)) % 2 == 1 <==> b[j]
  {
    if j > 0 {
      var t := ToNat(b[1..]);
      ToNatBits(b[1..], j - 1);
      HalfOf(t, if b[0] then 1 else 0, Pow2(j - 1));
    }
  }

  lemma HalfOf(t: nat, d: nat, p: nat)
    requires p > 0 && d < 2
    ensures (d + 2 * t) / (2 * p) == t / p
  {
    var q, r := t / p, t % p;
    assert d + 2 * t == q * (2 * p) + (2 * r + d);
    Quotient(q, 2 * p, 2 * r + d);
  }

  lemma Quotient(q: nat, n: nat, r: nat)
    requires r < n
    ensures (q * n + r) / n == q
  {
    var d := (q * n + r) / n;
    var e := (q * n + r) % n;
    assert d * n + e == q * n + r;
    if d != q { Multiples(d - q, n, r - e); }
  }

  lemma {:induction false} Multiples(d: int, n: int, r: int)
    requires -n < r < n && d != 0
    ensures d * n != r && (d > 0 ==> d * n >= n) && (d < 0 ==> d * n <= -n)
    decreases if d < 0 then -d else d
  {
    if d > 1 {
      Multiples(d - 1, n, r);
    } else if d < -1 {
      Multiples(d + 1, n, r);
    }
  }

  function Zero(): Bits {
    seq(32, _ => false)
  }

  /** Bitwise exclusive or. */
  function Xor(a: Bits, b: Bits): Bits {
    seq(32, i requires 0 <= i < 32 => a[i] != b[i])
  }

  lemma XorZero(a: Bits)
    ensures Xor(a, Zero()) == a && Xor(Zero(), a) == a
  {
  }

  lemma XorAssociative(a: Bits, b: Bits, c: Bits)
    ensures Xor(Xor(a, b), c) == Xor(a, Xor(b, c))
  {
  }

  /** -1, 0 or 1, as the comparison macro returns it. */
  function Order(a: int, b: int): (r: int)
    ensures r == 0 <==> a == b
  {
    if a > b then 1 else if a < b then -1 else 0
  }

  /** The first nonzero of two comparisons. */
  function Then(r: int, s: int): int {
    if r != 0 then r else s
  }

  // ----- hashes bit by bit -----

  /** The exclusive or of the low 32 bits of several integers. */
  function Mixed(words: seq<int>): Bits {
    if words == [] then Zero() else Xor(Mixed(words[..|words| - 1]), Word(words[|words| - 1]))
  }

  /** Bit `j` of an integer in two's complement. */
  predicate HasBit(x: int, j: nat) {
    (x / Pow2(j)) % 2 == 1
  }

  /** The places of the integers that have a bit. */
  function Places(words: seq<int>, j: nat): set<int> {
    set i | 0 <= i < |words| && HasBit(words[i], j)
  }

  lemma PlacesNext(words: seq<int>, j: nat)
    requires words != []
    ensures var n := |words| - 1;
      |Places(words, j)| == |Places(words[..n], j)| + if HasBit(words[n], j) then 1 else 0
  {
    hide HasBit;
    var n := |words| - 1;
    assert Places(words, j) == Places(words[..n], j) + if HasBit(words[n], j) then {n} else {};
  }

  lemma WordBit(x: int, j: nat)
    requires j < 32
    ensures Word(x)[j] == HasBit(x, j)
  {
  }

  /** A bit of it is set when an odd number of the integers have that bit. */
  lemma {:induction false} MixedBits(words: seq<int>, j: nat)
    requires j < 32
    ensures Mixed(words)[j] <==> |Places(words, j)| % 2 == 1
  {
    hide HasBit, Word, Places;
    if words != [] {
      var n := |words| - 1;
      MixedBits(words[..n], j);
      PlacesNext(words, j);
      WordBit(words[n], j);
    } else {
      assert Places([], j) == {} by { NoPlaces(j); }
    }
  }

  lemma NoPlaces(j: nat)
    ensures Places([], j) == {}
  {
  }

  lemma {:induction false} MixedConcat(a: seq<int>, b: seq<int>)
    ensures Mixed(a + b) == Xor(Mixed(a), Mixed(b))
  {
    if b == [] {
      assert a + b == a;
      XorZero(Mixed(a));
    } else {
      var n := |b| - 1;
      MixedConcat(a, b[..n]);
      assert (a + b)[..|a| + n] == a + b[..n];
      XorAssociative(Mixed(a), Mixed(b[..n]), Word(b[n]));
    }
  }

  lemma MixedOne(x: int)
    ensures Mixed([x]) == Word(x)
  {
    assert [x][..0] == [];
    XorZero(Word(x));
  }

  // ----- the per-thread and per-rank tables: operation, rank and stack -----

  datatype ThreadKey = ThreadKey(op: int, rank: int, pc: Stack)

  function PcCompare(a: seq<Pc>, b: seq<Pc>): (r: int)
    requires |a| == |b|
    ensures r == 0 <==> a == b
  {
    if a == [] then 0 else Then(Order(a[0], b[0]), PcCompare(a[1..], b[1..]))
  }

  function ThreadCompare(a: ThreadKey, b: ThreadKey): (r: int)
    ensures r == 0 <==> a == b
  {
    Then(Order(a.op, b.op), Then(Order(a.rank, b.rank), PcCompare(a.pc, b.pc)))
  }

  function PcHash(pc: seq<Pc>): Bits {
    if pc == [] then Zero() else Xor(PcHash(pc[..|pc| - 1]), Word(pc[|pc| - 1]))
  }

  function ThreadHash(k: ThreadKey): Bits {
    Xor(Xor(Xor(Word(52271), Word(k.op)), PcHash(k.pc)), Word(k.rank))
  }

  /** The first frame that differs decides. */
  lemma {:induction false} PcOrder(a: seq<Pc>, b: seq<Pc>, i: nat)
    requires |a| == |b| && i < |a| && a[..i] == b[..i] && a[i] != b[i]
    ensures PcCompare(a, b) == if a[i] > b[i] then 1 else -1
  {
    if i > 0 {
      assert a[0] == a[..i][0] && b[0] == b[..i][0];
      assert a[1..][..i - 1] == a[..i][1..] && b[1..][..i - 1] == b[..i][1..];
      PcOrder(a[1..], b[1..], i - 1);
    }
  }

  /** A stack as integers. */
  function Ints(pc: seq<Pc>): (w: seq<int>)
    ensures |w| == |pc| && forall i :: 0 <= i < |w| ==> w[i] == pc[i]
  {
    seq(|pc|, i requires 0 <= i < |pc| => pc[i])
  }

  lemma {:induction false} PcHashMixed(pc: seq<Pc>)
    ensures PcHash(pc) == Mixed(Ints(pc))
  {
    if pc != [] {
      hide Word, Xor, Zero;
      var n := |pc| - 1;
      PcHashMixed(pc[..n]);
      assert Ints(pc)[..n] == Ints(pc[..n]);
    }
  }

  /** What the hash of a key mixes. */
  lemma ThreadHashBits(k: ThreadKey, j: nat)
    requires j < 32
    ensures var w := [52271, k.op] + Ints(k.pc) + [k.rank];
      ThreadHash(k)[j] <==> |Places(w, j)| % 2 == 1
  {
    hide HasBit, Word, Xor, Mixed, PcHash, Ints, Places;
    PcHashMixed(k.pc);
    MixedConcat([52271, k.op] + Ints(k.pc), [k.rank]);
    MixedConcat([52271, k.op], Ints(k.pc));
    MixedConcat([52271], [k.op]);
    assert [52271, k.op] == [52271] + [k.op];
    MixedOne(52271);
    MixedOne(k.op);
    MixedOne(k.rank);
    MixedBits([52271, k.op] + Ints(k.pc) + [k.rank], j);
  }

  /** The comparator's loop over the frames. */
  method ThreadComparator(a: ThreadKey, b: ThreadKey) returns (r: int)
    ensures r == ThreadCompare(a, b)
    ensures a.op != b.op ==> r == if a.op > b.op then 1 else -1
    ensures a.op == b.op && a.rank != b.rank ==> r == if a.rank > b.rank then 1 else -1
    ensures a.op == b.op && a.rank == b.rank ==>
      forall i :: 0 <= i < FULL_STACK_DEPTH && a.pc[..i] == b.pc[..i] && a.pc[i] != b.pc[i] ==>
        r == if a.pc[i] > b.pc[i] then 1 else -1
  {
    forall i | 0 <= i < FULL_STACK_DEPTH && a.pc[..i] == b.pc[..i] && a.pc[i] != b.pc[i]
      ensures PcCompare(a.pc, b.pc) == if a.pc[i] > b.pc[i] then 1 else -1
    {
      PcOrder(a.pc, b.pc, i);
    }
    if a.op > b.op { return 1; }
    if a.op < b.op { return -1; }
    if a.rank > b.rank { return 1; }
    if a.rank < b.rank { return -1; }
    for i := 0 to FULL_STACK_DEPTH
      invariant PcCompare(a.pc, b.pc) == PcCompare(a.pc[i..], b.pc[i..])
    {
      if a.pc[i] > b.pc[i] { return 1; }
      if a.pc[i] < b.pc[i] { return -1; }
    }
    return 0;
  }

  /** The hash key's loop over the frames. */
  method ThreadHashKey(k: ThreadKey) returns (h: Bits)
    ensures h == ThreadHash(k)
  {
    var res: Bits := Zero();
    for i := 0 to FULL_STACK_DEPTH
      invariant res == PcHash(k.pc[..i])
    {
      res := Xor(res, Word(k.pc[i]));
      assert k.pc[..i + 1][..i] == k.pc[..i];
    }
    assert k.pc[..FULL_STACK_DEPTH] == k.pc;
    return Xor(Xor(Xor(Word(52271), Word(k.op)), res), Word(k.rank));
  }

  // ----- the collector's tables -----

  datatype SrcKey = SrcKey(op: int, csid: int, rank: int)
  datatype AggKey = AggKey(op: int, csid: int)

  function SrcCompare(a: SrcKey, b: SrcKey): (r: int)
    ensures r == 0 <==> a == b
  {
    Then(Order(a.op, b.op), Then(Order(a.csid, b.csid), Order(a.rank, b.rank)))
  }

  function SrcHash(k: SrcKey): Bits {
    Xor(Xor(Xor(Word(52271), Word(k.op)), Word(k.rank)), Word(k.csid))
  }

  function AggCompare(a: AggKey, b: AggKey): (r: int)
    ensures r == 0 <==> a == b
  {
    Then(Order(a.op, b.op), Order(a.csid, b.csid))
  }

  function AggHash(k: AggKey): Bits {
    Xor(Xor(Word(52271), Word(k.op)), Word(k.csid))
  }

  function OpCompare(a: int, b: int): (r: int)
    ensures r == 0 <==> a == b
  {
    Order(a, b)
  }

  function OpHash(op: int): Bits {
    Xor(Word(52271), Word(op))
  }

  /** The comparators of the collector put keys in lexicographic order. */
  lemma CollectorOrders(a: SrcKey, b: SrcKey)
    ensures -1 <= SrcCompare(a, b) <= 1
    ensures SrcCompare(a, b) > 0 <==>
      a.op > b.op || (a.op == b.op && (a.csid > b.csid || (a.csid == b.csid && a.rank > b.rank)))
    ensures -1 <= AggCompare(AggKey(a.op, a.csid), AggKey(b.op, b.csid)) <= 1
    ensures AggCompare(AggKey(a.op, a.csid), AggKey(b.op, b.csid)) > 0 <==>
      a.op > b.op || (a.op == b.op && a.csid > b.csid)
    ensures OpCompare(a.op, b.op) == if a.op > b.op then 1 else if a.op < b.op then -1 else 0
  {
  }

  /** What their hashes mix. */
  lemma CollectorHashBits(k: SrcKey, j: nat)
    requires j < 32
    ensures SrcHash(k)[j] <==>
      ((52271 / Pow2(j)) % 2 + (k.op / Pow2(j)) % 2 + (k.rank / Pow2(j)) % 2 + (k.csid / Pow2(j)) % 2) % 2 == 1
    ensures AggHash(AggKey(k.op, k.csid))[j] <==>
      ((52271 / Pow2(j)) % 2 + (k.op / Pow2(j)) % 2 + (k.csid / Pow2(j)) % 2) % 2 == 1
    ensures OpHash(k.op)[j] <==> ((52271 / Pow2(j)) % 2 + (k.op / Pow2(j)) % 2) % 2 == 1
  {
  }

  // ----- the pc cache -----

  /** The address as a signed long. */
  function Signed(p: Pc): int {
    if p < 0x8000_0000_0000_0000 then p else p - 0x1_0000_0000_0000_0000
  }

  function PcCacheCompare(a: Pc, b: Pc): (r: int)
    ensures r == 0 <==> a == b
  {
    Order(Signed(a), Signed(b))
  }

  function PcCacheHash(p: Pc): Bits {
    Xor(Word(662917), Word(p))
  }

  /** Addresses are ordered as signed numbers: those from 2^63 on come first. */
  lemma PcCacheOrder(a: Pc, b: Pc, j: nat)
    requires j < 32
    ensures -1 <= PcCacheCompare(a, b) <= 1
    ensures PcCacheCompare(a, b) > 0 <==>
      if a < 0x8000_0000_0000_0000 <==> b < 0x8000_0000_0000_0000 then a > b else a < b
    ensures PcCacheHash(a)[j] <==> ((662917 / Pow2(j)) % 2 + (a / Pow2(j)) % 2) % 2 == 1
  {
  }

  // ----- the call-site id cache: one frame per stack level, as its source location -----

  /** A character of a C string; 0 ends the string and does not occur in it. */
  type CChar = c: int | -128 <= c < 128 && c != 0 witness 1
  type Str = seq<CChar>

  /** One level of a stack: NULL names and a zero line where the pc is NULL or was not looked up. */
  datatype Frame = Frame(file: NameOpt, func: NameOpt, line: int, pc: Pc)
  datatype NameOpt = Null | Name(s: Str)

  type Frames = f: seq<Frame> | |f| == FULL_STACK_DEPTH witness seq(FULL_STACK_DEPTH, _ => Frame(Null, Null, 0, 0))

  datatype SrcIdKey = SrcIdKey(id: int, frames: Frames)

  /** A frame is looked up exactly when its pc is not NULL. */
  predicate WellFormedFrame(f: Frame) {
    (f.file.Null? <==> f.pc == 0) && (f.func.Null? <==> f.pc == 0) && (f.pc == 0 ==> f.line == 0)
  }

  predicate WellFormed(k: SrcIdKey) {
    forall i :: 0 <= i < FULL_STACK_DEPTH ==> WellFormedFrame(k.frames[i])
  }

  /** The character as an unsigned char. */
  function Unsigned(c: int): int {
    c % 256
  }

  function StrCompare(a: Str, b: Str): (r: int)
    ensures r == 0 <==> a == b
  {
    if a == [] && b == [] then 0
    else if a == [] then -1
    else if b == [] then 1
    else Then(Order(Unsigned(a[0]), Unsigned(b[0])), StrCompare(a[1..], b[1..]))
  }

  /** The first character that differs decides, as an unsigned character; a proper prefix is less. */
  lemma {:induction false} StrOrder(a: Str, b: Str, i: nat)
    requires i <= |a| && i <= |b| && a[..i] == b[..i]
    ensures i == |a| < |b| ==> StrCompare(a, b) == -1
    ensures i == |b| < |a| ==> StrCompare(a, b) == 1
    ensures i < |a| && i < |b| && a[i] != b[i] && (a[i] < 0 <==> b[i] < 0) ==>
      StrCompare(a, b) == if a[i] > b[i] then 1 else -1
    ensures i < |a| && i < |b| && !(a[i] < 0 <==> b[i] < 0) ==> StrCompare(a, b) == if a[i] < 0 then 1 else -1
  {
    if i > 0 {
      assert a[0] == a[..i][0] && b[0] == b[..i][0];
      assert a[1..][..i - 1] == a[..i][1..] && b[1..][..i - 1] == b[..i][1..];
      StrOrder(a[1..], b[1..], i - 1);
    }
  }

  function NameCompare(a: NameOpt, b: NameOpt): int {
    if a.Null? || b.Null? then 0 else StrCompare(a.s, b.s)
  }

  function FrameCompare(a: Frame, b: Frame): int {
    Then(if a.file.Name? && b.file.Name?
         then Then(NameCompare(a.file, b.file), Then(Order(a.line, b.line), NameCompare(a.func, b.func)))
         else 0,
         Order(a.pc, b.pc))
  }

  function FramesCompare(a: seq<Frame>, b: seq<Frame>): int
    requires |a| == |b|
  {
    if a == [] then 0 else Then(FrameCompare(a[0], b[0]), FramesCompare(a[1..], b[1..]))
  }

  /** The first frame that differs decides: by file name, line and function name where both were looked up, and then by
      pc. */
  lemma {:induction false} FramesOrder(a: seq<Frame>, b: seq<Frame>, i: nat)
    requires |a| == |b| && i < |a| && a[..i] == b[..i] && a[i] != b[i] && WellFormedFrame(a[i]) && WellFormedFrame(b[i])
    ensures var f, g := a[i], b[i];
      FramesCompare(a, b) ==
        if f.pc != 0 && g.pc != 0 && f.file.s != g.file.s then StrCompare(f.file.s, g.file.s)
        else if f.pc != 0 && g.pc != 0 && f.line != g.line then (if f.line > g.line then 1 else -1)
        else if f.pc != 0 && g.pc != 0 && f.func.s != g.func.s then StrCompare(f.func.s, g.func.s)
        else if f.pc > g.pc then 1 else -1
  {
    if i > 0 {
      assert a[0] == a[..i][0] && b[0] == b[..i][0];
      assert a[1..][..i - 1] == a[..i][1..] && b[1..][..i - 1] == b[..i][1..];
      SameFrameCompare(a[0]);
      FramesOrder(a[1..], b[1..], i - 1);
    }
  }

  lemma SameFrameCompare(f: Frame)
    ensures FrameCompare(f, f) == 0
  {
  }

  /** With a traceback depth of 0 only the id counts. */
  function SrcIdCompare(a: SrcIdKey, b: SrcIdKey): int {
    if REPORT_STACK_DEPTH == 0 then Order(a.id, b.id) else FramesCompare(a.frames, b.frames)
  }

  function StrHash(s: Str): Bits {
    if s == [] then Zero() else Xor(StrHash(s[..|s| - 1]), Word(s[|s| - 1]))
  }

  function NameHash(n: NameOpt): Bits {
    if n.Null? then Zero() else StrHash(n.s)
  }

  function FrameHash(f: Frame): Bits {
    Xor(if f.file.Name? then Xor(NameHash(f.file), NameHash(f.func)) else Zero(), Word(f.line))
  }

  function FramesHash(f: seq<Frame>): Bits {
    if f == [] then Zero() else Xor(FramesHash(f[..|f| - 1]), FrameHash(f[|f| - 1]))
  }

  /** The hash covers the frames at every traceback depth, and never the id. */
  function SrcIdHash(k: SrcIdKey): Bits {
    Xor(Word(662917), FramesHash(k.frames))
  }

  /** What the hash mixes: of every frame the characters of its names and its line. */
  function HashedWords(f: seq<Frame>): seq<int>
    requires forall i :: 0 <= i < |f| ==> WellFormedFrame(f[i])
  {
    if f == [] then [] else HashedWords(f[..|f| - 1]) + FrameWords(f[|f| - 1])
  }

  function FrameWords(f: Frame): seq<int>
    requires WellFormedFrame(f)
  {
    (if f.pc == 0 then [] else Chars(f.file.s) + Chars(f.func.s)) + [f.line]
  }

  function Chars(s: Str): (w: seq<int>)
    ensures |w| == |s| && forall i :: 0 <= i < |w| ==> w[i] == s[i]
  {
    seq(|s|, i requires 0 <= i < |s| => s[i])
  }

  lemma {:induction false} StrHashMixed(s: Str)
    ensures StrHash(s) == Mixed(Chars(s))
  {
    if s != [] {
      var n := |s| - 1;
      StrHashMixed(s[..n]);
      assert Chars(s)[..n] == Chars(s[..n]);
    }
  }

  lemma FrameHashMixed(f: Frame)
    requires WellFormedFrame(f)
    ensures FrameHash(f) == Mixed(FrameWords(f))
  {
    hide Mixed, Word;
    MixedOne(f.line);
    if f.pc == 0 {
      assert [] + [f.line] == [f.line];
      XorZero(Word(f.line));
    } else {
      StrHashMixed(f.file.s);
      StrHashMixed(f.func.s);
      MixedConcat(Chars(f.file.s), Chars(f.func.s));
      MixedConcat(Chars(f.file.s) + Chars(f.func.s), [f.line]);
    }
  }

  lemma {:induction false} FramesHashMixed(f: seq<Frame>)
    requires forall i :: 0 <= i < |f| ==> WellFormedFrame(f[i])
    ensures FramesHash(f) == Mixed(HashedWords(f))
  {
    if f != [] {
      hide FrameHash, Chars, Xor, Mixed, FrameWords;
      var n := |f| - 1;
      FramesHashMixed(f[..n]);
      FrameHashMixed(f[n]);
      MixedConcat(HashedWords(f[..n]), FrameWords(f[n]));
    } else {
      assert Mixed([]) == Zero();
    }
  }

  lemma SrcIdHashBits(k: SrcIdKey, j: nat)
    requires WellFormed(k) && j < 32
    ensures var w := [662917] + HashedWords(k.frames);
      SrcIdHash(k)[j] <==> |Places(w, j)| % 2 == 1
  {
    hide HasBit, Word, Xor, Mixed, Places;
    FramesHashMixed(k.frames);
    MixedConcat([662917], HashedWords(k.frames));
    MixedOne(662917);
    MixedBits([662917] + HashedWords(k.frames), j);
  }

  lemma {:induction false} FramesCompareEqual(a: seq<Frame>, b: seq<Frame>)
    requires |a| == |b|
    requires forall i :: 0 <= i < |a| ==> WellFormedFrame(a[i]) && WellFormedFrame(b[i])
    ensures FramesCompare(a, b) == 0 <==> a == b
  {
    if a != [] {
      FramesCompareEqual(a[1..], b[1..]);
      assert a == [a[0]] + a[1..] && b == [b[0]] + b[1..];
      assert FrameCompare(a[0], b[0]) == 0 <==> a[0] == b[0];
    }
  }

  /** With a traceback depth above 0, well-formed keys compare equal exactly when their frames are the same. */
  lemma SrcIdEqual(a: SrcIdKey, b: SrcIdKey)
    requires WellFormed(a) && WellFormed(b) && REPORT_STACK_DEPTH > 0
    ensures SrcIdCompare(a, b) == 0 <==> a.frames == b.frames
  {
    FramesCompareEqual(a.frames, b.frames);
  }

  function Nulls(n: nat): (f: seq<Frame>)
    ensures |f| == n && forall i :: 0 <= i < n ==> f[i] == Frame(Null, Null, 0, 0)
  {
    seq(n, _ => Frame(Null, Null, 0, 0))
  }

  /** NULL frames add nothing to the hash. */
  lemma {:induction false} NullsHash(f: seq<Frame>, n: nat)
    ensures FramesHash(f + Nulls(n)) == FramesHash(f)
  {
    if n == 0 {
      assert f + Nulls(0) == f;
    } else {
      NullsHash(f, n - 1);
      var g := f + Nulls(n);
      assert g[..|g| - 1] == f + Nulls(n - 1);
      NullFrameHash();
      XorZero(FramesHash(f));
    }
  }

  lemma NullFrameHash()
    ensures FrameHash(Frame(Null, Null, 0, 0)) == Zero()
  {
    assert Word(0) == Zero();
    XorZero(Zero());
  }

  lemma FirstFrameHash(f: Frame, k: SrcIdKey)
    requires FULL_STACK_DEPTH > 0 && k.frames == [f] + Nulls(FULL_STACK_DEPTH - 1)
    ensures SrcIdHash(k) == Xor(Word(662917), FrameHash(f))
  {
    NullsHash([f], FULL_STACK_DEPTH - 1);
    assert [f][..0] == [];
    XorZero(FrameHash(f));
  }

  /** Comparator zero implies equal hash. */
  ghost predicate SrcIdAgrees() {
    forall a: SrcIdKey, b: SrcIdKey :: WellFormed(a) && WellFormed(b) && SrcIdCompare(a, b) == 0 ==>
      SrcIdHash(a) == SrcIdHash(b)
  }

  /** Two well-formed keys with the same id whose hashes differ; one has a frame although the depth is 0. */
  lemma DepthZeroDisagrees()
    requires FULL_STACK_DEPTH > 0 && REPORT_STACK_DEPTH == 0
    ensures !SrcIdAgrees()
  {
    var x, y := Frame(Null, Null, 0, 0), Frame(Name([]), Name([]), 1, 1);
    var rest := Nulls(FULL_STACK_DEPTH - 1);
    var a, b := SrcIdKey(0, [x] + rest), SrcIdKey(0, [y] + rest);
    FirstFrameHash(x, a);
    FirstFrameHash(y, b);
    NullFrameHash();
    assert FrameHash(y)[0];
    assert SrcIdHash(a)[0] != SrcIdHash(b)[0];
    assert SrcIdCompare(a, b) == 0;
  }

  /** Over all well-formed keys "comparator zero implies equal hash" holds exactly when the traceback depth is above
      0: at depth 0 the comparator sees only the id while the hash sees only the frames.  The profiler records no frames
      at depth 0, so it never makes two keys that tell the difference; see SourceIds.MadeKeysConsistent. */
  lemma SrcIdHashAgreesIff()
    requires FULL_STACK_DEPTH > 0
    ensures REPORT_STACK_DEPTH > 0 <==> SrcIdAgrees()
  {
    if REPORT_STACK_DEPTH > 0 {
      forall a: SrcIdKey, b: SrcIdKey | WellFormed(a) && WellFormed(b) && SrcIdCompare(a, b) == 0
        ensures SrcIdHash(a) == SrcIdHash(b)
      {
        SrcIdEqual(a, b);
      }
    } else {
      DepthZeroDisagrees();
    }
  }

  /** The comparator's loop over the frames. */
  method SrcIdComparator(a: SrcIdKey, b: SrcIdKey) returns (r: int)
    requires WellFormed(a) && WellFormed(b)
    ensures r == SrcIdCompare(a, b)
    ensures REPORT_STACK_DEPTH == 0 ==> r == if a.id > b.id then 1 else if a.id < b.id then -1 else 0
  {
    if REPORT_STACK_DEPTH == 0 {
      return if a.id > b.id then 1 else if a.id < b.id then -1 else 0;
    }
    for i := 0 to FULL_STACK_DEPTH
      invariant FramesCompare(a.frames, b.frames) == FramesCompare(a.frames[i..], b.frames[i..])
    {
      var f, g := a.frames[i], b.frames[i];
      if f.file.Name? && g.file.Name? {
        r := StrCompare(f.file.s, g.file.s);
        if r != 0 { return; }
        if f.line > g.line { return 1; }
        if f.line < g.line { return -1; }
        r := StrCompare(f.func.s, g.func.s);
        if r != 0 { return; }
      }
      if f.pc > g.pc { return 1; }
      if f.pc < g.pc { return -1; }
    }
    return 0;
  }

  /** The hash key's loops over the frames and over the characters of the names. */
  method SrcIdHashKey(k: SrcIdKey) returns (h: Bits)
    requires WellFormed(k)
    ensures h == SrcIdHash(k)
  {
    var res: Bits := Zero();
    for i := 0 to FULL_STACK_DEPTH
      invariant res == FramesHash(k.frames[..i])
    {
      var f := k.frames[i];
      assert k.frames[..i + 1][..i] == k.frames[..i];
      ghost var start: Bits := res;
      if f.file.Name? {
        res := NameHashKey(res, f.file.s);
        res := NameHashKey(res, f.func.s);
        XorAssociative(start, NameHash(f.file), NameHash(f.func));
      }
      XorZero(start);
      XorAssociative(start, if f.file.Name? then Xor(NameHash(f.file), NameHash(f.func)) else Zero(), Word(f.line));
      res := Xor(res, Word(f.line));
    }
    assert k.frames[..FULL_STACK_DEPTH] == k.frames;
    return Xor(Word(662917), res);
  }

  /** Mixes the characters of a name into the hash, one by one. */
  method NameHashKey(start: Bits, s: Str) returns (res: Bits)
    ensures res == Xor(start, StrHash(s))
  {
    res := start;
    XorZero(start);
    for j := 0 to |s|
      invariant res == Xor(start, StrHash(s[..j]))
    {
      XorAssociative(start, StrHash(s[..j]), Word(s[j]));
      assert s[..j + 1][..j] == s[..j];
      res := Xor(res, Word(s[j]));
    }
    assert s[..|s|] == s;
  }
}
