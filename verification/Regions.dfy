/** The region names: a stack kept as one dotted string in a fixed buffer of characters. */
module Regions {

  const REGION_NAME_MAX := 1024
  const NUL: char := '\0'

  /** A C string, without its terminator. */
  type Name = s: string | NUL !in s witness []

  /** What a call does besides changing the buffer; `Aborted` ends the process. */
  datatype Outcome = Done | Warned | Aborted

  /** The characters before the first NUL. */
  function UpToNul(b: string): (t: Name)
    ensures t <= b && (|t| < |b| ==> b[|t|] == NUL)
  {
    if b == [] || b[0] == NUL then [] else [b[0]] + UpToNul(b[1..])
  }

  /** The string after `i` is what `strncpy` writes into `n` places: the source, cut off or padded with NULs. */
  function Padded(src: Name, n: nat): (d: string)
    ensures |d| == n && forall i :: 0 <= i < n ==> d[i] == if i < |src| then src[i] else NUL
  {
    seq(n, i requires 0 <= i < n => if i < |src| then src[i] else NUL)
  }

  /** The place of the last dot, or -1. */
  function LastDot(t: string): (i: int)
    ensures -1 <= i < |t| && (i >= 0 ==> t[i] == '.')
    ensures forall j :: i < j < |t| ==> t[j] != '.'
  {
    if t == [] then -1 else if t[|t| - 1] == '.' then |t| - 1 else LastDot(t[..|t| - 1])
  }

  /** The last dot, if there is one, has none after it. */
  lemma DotMeaning(t: string)
    ensures '.' in t <==> LastDot(t) >= 0
    ensures LastDot(t) >= 0 ==> t[LastDot(t)] == '.' && '.' !in t[LastDot(t) + 1..]
  {
  }

  /** What entering a region does. */
  function EnterOutcome(t: Name, name: Name): Outcome {
    if '.' in name then Aborted
    else if t == "" then if |name| > REGION_NAME_MAX - 1 then Warned else Done
    else if |t| >= REGION_NAME_MAX - 2 then Warned
    else Done
  }

  /** The dotted string with one more name. */
  function Entered(t: Name, name: Name): Name {
    if t == "" then name else t + "." + name
  }

  /** The dotted string without its last name. */
  function Left(t: Name): Name {
    if LastDot(t) >= 0 then t[..LastDot(t)] else ""
  }

  /** The longer string and its terminator fit the buffer. */
  predicate Fits(t: Name, name: Name) {
    |Entered(t, name)| < REGION_NAME_MAX
  }

  function MinLength(t: Name): nat {
    if |t| < REGION_NAME_MAX then |t| else REGION_NAME_MAX
  }

  lemma PaddedText(t: Name, n: nat)
    ensures NUL in Padded(t, n) <==> |t| < n
    ensures UpToNul(Padded(t, n)) == t[..if |t| < n then |t| else n]
  {
    var m := if |t| < n then |t| else n;
    UpToNulAt(Padded(t, n), m);
    if m < n { assert Padded(t, n)[m] == NUL; }
  }

  lemma {:induction false} UpToNulAt(b: string, n: nat)
    requires n <= |b| && (n < |b| ==> b[n] == NUL) && forall i :: 0 <= i < n ==> b[i] != NUL
    ensures UpToNul(b) == b[..n]
  {
    if n > 0 { UpToNulAt(b[1..], n - 1); }
  }

  class RegionBuffer {
    const currentRegion: array<char>

    ghost predicate Valid() {
      currentRegion.Length == REGION_NAME_MAX
    }

    /** The buffer holds a C string. */
    ghost predicate Terminated()
      reads currentRegion
    {
      NUL in currentRegion[..]
    }

    ghost function Text(): Name
      reads currentRegion
    {
      UpToNul(currentRegion[..])
    }

    constructor ()
      ensures Valid() && Terminated() && Text() == "" && fresh(currentRegion)
    {
      currentRegion := new char[REGION_NAME_MAX](_ => NUL);
      new;
      assert currentRegion[0] == NUL;
    }

    method StrLen() returns (n: nat)
      requires Terminated()
      ensures n == |Text()| < currentRegion.Length
    {
      n := 0;
      while currentRegion[n] != NUL
        invariant n < currentRegion.Length && forall i :: 0 <= i < n ==> currentRegion[i] != NUL
        decreases currentRegion.Length - n
      {
        n := n + 1;
      }
      UpToNulAt(currentRegion[..], n);
    }

    /** Copies a string to the buffer from place `at` on, into `n` places. */
    method StrNCpy(at: nat, src: Name, n: nat)
      requires at + n <= currentRegion.Length
      modifies currentRegion
      ensures currentRegion[..] == old(currentRegion[..at]) + Padded(src, n) + old(currentRegion[at + n..])
      ensures forall j :: 0 <= j < currentRegion.Length ==>
        currentRegion[j] ==
          if j < at || at + n <= j then old(currentRegion[j]) else if j - at < |src| then src[j - at] else '\0'
    {
      var i := 0;
      while i < n
        invariant 0 <= i <= n
        invariant forall j :: 0 <= j < currentRegion.Length ==>
          currentRegion[j] == if at <= j < at + i then Padded(src, n)[j - at] else old(currentRegion[j])
      {
        currentRegion[at + i] := if i < |src| then src[i] else NUL;
        i := i + 1;
      }
    }

    /** The place of the last dot before the terminator, or -1. */
    method StrRChr() returns (p: int)
      requires Terminated()
      ensures p == LastDot(Text())
    {
      p := -1;
      var n := 0;
      while currentRegion[n] != NUL
        invariant n < currentRegion.Length && forall i :: 0 <= i < n ==> currentRegion[i] != NUL
        invariant p == LastDot(currentRegion[..n])
        decreases currentRegion.Length - n
      {
        assert currentRegion[..n + 1][..n] == currentRegion[..n];
        if currentRegion[n] == '.' {
          p := n;
        }
        n := n + 1;
      }
      UpToNulAt(currentRegion[..], n);
    }

    method HasDot(name: Name) returns (found: bool)
      ensures found <==> '.' in name
    {
      found := false;
      for i := 0 to |name|
        invariant found <==> '.' in name[..i]
      {
        assert name[..i + 1] == name[..i] + [name[i]];
        if name[i] == '.' {
          found := true;
        }
      }
      assert name[..|name|] == name;
    }

    /** Enters a region. */
    method Enter(regionName: Name) returns (o: Outcome)
      requires Valid() && Terminated()
      modifies currentRegion
      ensures o == EnterOutcome(old(Text()), regionName)
      ensures o == Aborted <==> '.' in regionName
      ensures o == Warned <==>
        '.' !in regionName && (if old(Text()) == "" then |regionName| > 1023 else |old(Text())| >= 1022)
      ensures o == Done ==>
        var all := if old(Text()) == "" then regionName else old(Text()) + "." + regionName;
        Text() == (if |all| <= 1024 then all else all[..1024]) && (Terminated() <==> |all| < 1024)
      ensures o != Done ==> currentRegion[..] == old(currentRegion[..])
      ensures o == Done ==> Terminated() == Fits(old(Text()), regionName)
      ensures o == Done ==> Text() == Entered(old(Text()), regionName)[..MinLength(Entered(old(Text()), regionName))]
    {
      var dotted := HasDot(regionName);
      if dotted {
        return Aborted;
      }
      ghost var t, all := Text(), Entered(Text(), regionName);
      if currentRegion[0] == NUL {
        UpToNulAt(currentRegion[..], 0);
        if |regionName| > REGION_NAME_MAX - 1 {
          return Warned;
        }
        StrNCpy(0, regionName, REGION_NAME_MAX);
      } else {
        var len := StrLen();
        if len >= REGION_NAME_MAX - 2 {
          return Warned;
        }
        StrNCpy(len, ".", REGION_NAME_MAX - len);
        StrNCpy(len + 1, regionName, REGION_NAME_MAX - len - 1);
      }
      assert currentRegion[..] == Padded(all, REGION_NAME_MAX);
      PaddedText(all, REGION_NAME_MAX);
      o := Done;
    }

    /** Leaves the last region entered. */
    method Exit() returns (o: Outcome)
      requires Valid() && Terminated()
      modifies currentRegion
      ensures Terminated() && o == (if old(Text()) == "" then Aborted else Done)
      ensures Text() == Left(old(Text()))
      ensures '.' !in old(Text()) ==> Text() == ""
      ensures '.' in old(Text()) ==>
        exists p :: 0 <= p < |old(Text())| && old(Text())[p] == '.' && '.' !in old(Text())[p + 1..] &&
          Text() == old(Text())[..p]
    {
      ghost var t := Text();
      var ptr := StrRChr();
      var len := StrLen();
      DotMeaning(t);
      if ptr >= 0 {
        currentRegion[ptr] := NUL;
        UpToNulAt(currentRegion[..], ptr);
      } else if len > 0 {
        currentRegion[0] := NUL;
        UpToNulAt(currentRegion[..], 0);
      } else {
        return Aborted;
      }
      o := Done;
    }
  }

  // ----- entering and leaving -----

  /** The region can be entered and left again. */
  predicate RoomFor(t: Name, name: Name) {
    && '.' !in name
    && if t == "" then 0 < |name| <= REGION_NAME_MAX - 1
       else |t| < REGION_NAME_MAX - 2 && |t| + 1 + |name| <= REGION_NAME_MAX - 1
  }

  /** After entering, the buffer is intact, and leaving brings the old string back. */
  predicate Undone(t: Name, name: Name) {
    var o := EnterOutcome(t, name);
    var u := if o == Done then Entered(t, name) else t;
    o != Aborted && (o == Done ==> Fits(t, name)) && u != "" && Left(u) == t
  }

  lemma {:induction false} LastDotAt(t: string, i: int)
    requires -1 <= i < |t| && (i >= 0 ==> t[i] == '.') && forall j :: i < j < |t| ==> t[j] != '.'
    ensures LastDot(t) == i
  {
  }

  lemma LeftEntered(t: Name, name: Name)
    requires '.' !in name
    ensures Left(Entered(t, name)) == t
  {
    if t == "" {
      LastDotAt(name, -1);
    } else {
      LastDotAt(Entered(t, name), |t|);
    }
  }

  /** An exit undoes an enter exactly when there is room for the name.  Otherwise the enter aborts, is ignored with a
      warning so that the exit leaves the region before it, enters nothing, or leaves the buffer without its
      terminator. */
  lemma ExitUndoesEnterIff(t: Name, name: Name)
    ensures Undone(t, name) <==> RoomFor(t, name)
  {
    if '.' !in name {
      LeftEntered(t, name);
      if EnterOutcome(t, name) == Warned && LastDot(t) >= 0 {
        assert |Left(t)| < |t|;
      }
    }
  }

  // ----- whole runs -----

  datatype Op = Entering(name: Name) | Leaving

  /** The open regions, outermost first, joined by dots. */
  function Join(open: seq<Name>): Name {
    if |open| == 0 then "" else Entered(Join(open[..|open| - 1]), open[|open| - 1])
  }

  function After(open: seq<Name>, op: Op): seq<Name> {
    match op
    case Entering(name) => open + [name]
    case Leaving => if open == [] then [] else open[..|open| - 1]
  }

  function AfterAll(ops: seq<Op>): seq<Name> {
    if ops == [] then [] else After(AfterAll(ops[..|ops| - 1]), ops[|ops| - 1])
  }

  predicate Allowed(open: seq<Name>, op: Op) {
    match op
    case Entering(name) => RoomFor(Join(open), name)
    case Leaving => open != []
  }

  /** Every open region was entered with room for its name. */
  ghost predicate Proper(open: seq<Name>) {
    open == [] ||
    var n := |open| - 1;
    Proper(open[..n]) && RoomFor(Join(open[..n]), open[n])
  }

  lemma ProperNotEmpty(open: seq<Name>)
    requires Proper(open)
    ensures Join(open) == "" <==> open == []
  {
  }

  /** What one call does to the joined names. */
  lemma Step(open: seq<Name>, op: Op)
    requires Proper(open) && Allowed(open, op)
    ensures Proper(After(open, op))
    ensures op.Entering? ==> Join(After(open, op)) == Entered(Join(open), op.name)
    ensures op.Leaving? ==> Join(After(open, op)) == Left(Join(open)) && Join(open) != ""
  {
    match op
    case Entering(name) =>
      assert (open + [name])[..|open|] == open;
    case Leaving =>
      var n := |open| - 1;
      LeftEntered(Join(open[..n]), open[n]);
  }

  /** Over any run of enters and exits, with no more exits than open regions and room for every name, the buffer is
      always the open names joined by dots; no call warns or aborts. */
  method Run(b: RegionBuffer, ops: seq<Op>) returns (ok: bool)
    requires b.Valid() && b.Terminated() && b.Text() == ""
    requires forall i :: 0 <= i < |ops| ==> Allowed(AfterAll(ops[..i]), ops[i])
    modifies b.currentRegion
    ensures ok && b.Terminated() && b.Text() == Join(AfterAll(ops))
  {
    ok := true;
    for i := 0 to |ops|
      invariant ok && b.Terminated() && Proper(AfterAll(ops[..i])) && b.Text() == Join(AfterAll(ops[..i]))
    {
      ghost var open := AfterAll(ops[..i]);
      assert ops[..i + 1][..i] == ops[..i];
      Step(open, ops[i]);
      var o := Call(b, ops[i], open);
      ok := ok && o == Done;
    }
    assert ops[..|ops|] == ops;
  }

  method Call(b: RegionBuffer, op: Op, ghost open: seq<Name>) returns (o: Outcome)
    requires b.Valid() && b.Terminated() && b.Text() == Join(open) && Allowed(open, op) && Proper(open)
    modifies b.currentRegion
    ensures b.Terminated() && o == Done
    ensures b.Text() == if op.Entering? then Entered(Join(open), op.name) else Left(Join(open))
  {
    ProperNotEmpty(open);
    match op
    case Entering(name) => o := b.Enter(name);
    case Leaving => o := b.Exit();
  }
}
