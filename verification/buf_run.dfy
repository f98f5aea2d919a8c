/** Runs of operations on one buffer: it behaves as a plain sequence of bytes. */
module BufferRuns {
  import opened Basics
  import opened CStrings
  import opened BufGrowth
  import opened Buffer

  datatype Op =
    | Append(bytes: seq<byte>)
    | Prepend(bytes: seq<byte>)
    | CatString(text: seq<byte>)
    | CCatString(text: seq<byte>)
    | DropFront(n: nat)
    | DropBack(n: nat)
    | Clear
    | Reserve(n: nat)
    | MakeFree(n: nat)
    | SetScheme(scheme: Scheme)

  /** The texts end with a zero, and the lengths are ints. */
  predicate Sane(op: Op) {
    match op
    case Append(s) => |s| <= INT_MAX
    case Prepend(s) => |s| <= INT_MAX
    case CatString(t) => 0 in t && StrEnd(t) <= INT_MAX
    case CCatString(t) => 0 in t && StrEnd(t) <= INT_MAX
    case MakeFree(n) => n <= INT_MAX
    case _ => true
  }

  /** What the operation means for a sequence of bytes */
  function Meaning(op: Op, s: seq<byte>): seq<byte>
    requires Sane(op)
  {
    match op
    case Append(t) => s + t
    case Prepend(t) => t + s
    case CatString(t) => s + CString(t)
    case CCatString(t) => s + CString(t)
    case DropFront(n) => if n <= |s| then s[n..] else s
    case DropBack(n) => if n <= |s| then s[..|s| - n] else s
    case Clear => []
    case Reserve(_) => s
    case MakeFree(_) => s
    case SetScheme(_) => s
  }

  predicate AllSane(ops: seq<Op>) {
    forall i :: 0 <= i < |ops| ==> Sane(ops[i])
  }

  /** What became of an operation; of the string given to xmlBufCCat some bytes are kept. */
  datatype Outcome = Failed | Done | Kept(bytes: seq<byte>)

  function After(op: Op, outcome: Outcome, s: seq<byte>): seq<byte>
    requires Sane(op)
  {
    match outcome
    case Failed => s
    case Done => Meaning(op, s)
    case Kept(t) => s + t
  }

  /** The operations with their outcomes, one after the other */
  function Folded(ops: seq<Op>, outcomes: seq<Outcome>, s: seq<byte>): seq<byte>
    requires |outcomes| <= |ops| && AllSane(ops)
  {
    if outcomes == [] then s
    else
      var n := |outcomes| - 1;
      After(ops[n], outcomes[n], Folded(ops, outcomes[..n], s))
  }

  /** The call is within the sizes the 32-bit arithmetic serves, and it will not fail. */
  ghost predicate Accepts(b: Buf, op: Op)
    requires b.Valid() && Sane(op)
    reads b
  {
    InRange(b, op) && b.error == 0 &&
    match op
    case Append(t) => b.AddCode(Some(t), |t|) == 0
    case Prepend(t) => b.AddHeadCode(Some(t), |t|) == 0
    case CatString(t) => b.AddCode(Some(t), -1) == 0
    case CCatString(t) => b.alloc != Immutable && Catted(b.alloc, b.use, [], b.size, CString(t)).ok
    case Reserve(n) => Resizes(b.alloc, b.use, b.size, n)
    case MakeFree(n) => n == 0 || (b.alloc != Immutable && Grown(b.alloc, b.use, b.size, n).Some?)
    case _ => true
  }

  /** The outcome as it can be told before the call */
  ghost function Expected(b: Buf, op: Op): Outcome
    requires b.Valid() && Sane(op)
    reads b
  {
    if !Accepts(b, op) then Failed
    else if op.CCatString? then Kept(Catted(b.alloc, b.use, [], b.size, CString(op.text)).kept)
    else Done
  }

  /** xmlBufCCat does what it is meant to exactly when no growth is needed after the first byte. */
  lemma CCatMeansCatExactlyWhen(b: Buf, op: Op, s: seq<byte>)
    requires b.Valid() && Sane(op) && op.CCatString? && InRange(b, op) && b.error == 0 && b.alloc != Immutable
    ensures After(op, Expected(b, op), s) == Meaning(op, s) <==> CCatFits(b, CString(op.text))
  {
    var t, c := CString(op.text), Catted(b.alloc, b.use, [], b.size, CString(op.text));
    CCatAppendsExactlyWhen(b.alloc, b.use, b.size, t);
    hide Resizes, Resized, FirstRoom;
    assert !c.ok ==> t != [];
    assert s + t == s + c.kept <==> t == c.kept by {
      assert (s + t)[|s|..] == t && (s + c.kept)[|s|..] == c.kept;
    }
    assert t != [] ==> |s + t| != |s|;
    hide Catted;
  }

  predicate CCatFits(b: Buf, s: seq<byte>)
    reads b
  {
    s == [] || (FirstRoom(b.alloc, b.use, b.size).Some?
                && (|s| == 1 || b.use + |s| + 9 < FirstRoom(b.alloc, b.use, b.size).value))
  }

  predicate InRange(b: Buf, op: Op)
    requires Sane(op)
    reads b
  {
    match op
    case Append(t) => Addable(b.use, b.size, |t|)
    case Prepend(t) => Addable(b.use, b.size, |t|)
    case CatString(t) => Addable(b.use, b.size, StrEnd(t))
    case CCatString(t) => b.use + StrEnd(t) + 10 <= INT_MAX
    case DropBack(_) => b.alloc != Immutable
    case Reserve(n) => Serves(b.size, n)
    case MakeFree(n) => b.size < 0x4000_0000_0000_0000
    case _ => true
  }

  method DoAdd(b: Buf, op: Op) returns (done: bool)
    requires b.Valid() && Sane(op) && b.error == 0 && b.Terminated() && InRange(b, op)
    requires op.Append? || op.Prepend?
    modifies b, b.block
    ensures b.Valid() && (b.error == 0 ==> b.Terminated()) && (b.block == old(b.block) || fresh(b.block))
    ensures done == old(Accepts(b, op))
    ensures done ==> b.Contents() == Meaning(op, old(b.Contents()))
    ensures !done ==> b.Contents() == old(b.Contents())
  {
    hide RoomCode, Resizes, Resized, Grown, FirstRoom, Catted;
    if op.Append? {
      var r := b.Add(Some(op.bytes), |op.bytes|);
      done := r == 0;
    } else {
      var r := b.AddHead(Some(op.bytes), |op.bytes|);
      done := r == 0;
    }
  }

  method DoCat(b: Buf, op: Op) returns (done: bool)
    requires b.Valid() && Sane(op) && b.error == 0 && b.Terminated() && InRange(b, op)
    requires op.CatString?
    modifies b, b.block
    ensures b.Valid() && (b.error == 0 ==> b.Terminated()) && (b.block == old(b.block) || fresh(b.block))
    ensures done == old(Accepts(b, op))
    ensures done ==> b.Contents() == Meaning(op, old(b.Contents()))
    ensures !done ==> b.Contents() == old(b.Contents())
  {
    hide RoomCode, Resizes, Resized, Grown, FirstRoom, Catted;
    var r := b.Cat(Some(op.text));
    done := r == 0;
  }

  method DoCCat(b: Buf, op: Op) returns (outcome: Outcome)
    requires b.Valid() && Sane(op) && b.error == 0 && b.Terminated() && InRange(b, op)
    requires op.CCatString?
    modifies b, b.block
    ensures b.Valid() && (b.error == 0 ==> b.Terminated()) && (b.block == old(b.block) || fresh(b.block))
    ensures outcome == old(Expected(b, op))
    ensures b.Contents() == After(op, outcome, old(b.Contents()))
  {
    hide RoomCode, Resizes, Resized, Grown, FirstRoom, Catted;
    var c := Catted(b.alloc, b.use, [], b.size, CString(op.text));
    CattedFailsEmpty(b.alloc, b.use, [], b.size, CString(op.text));
    ghost var was := b.Contents();
    var r := b.CCat(Some(op.text));
    assert was + [] == was;
    outcome := if r == 0 then Kept(c.kept) else Failed;
  }

  lemma {:induction false} CattedFailsEmpty(alloc: Scheme, base: nat, pending: seq<byte>, size: nat, rest: seq<byte>)
    ensures var c := Catted(alloc, base, pending, size, rest); !c.ok ==> c.kept == []
    decreases |rest|
  {
    hide Resizes, Resized;
    if rest != [] {
      CattedStep(alloc, base, pending, size, rest);
      var req := base + |pending| + 10;
      if req < size {
        CattedFailsEmpty(alloc, base, pending + [rest[0]], size, rest[1..]);
      } else if Resizes(alloc, base, size, req) {
        CattedFailsEmpty(alloc, base, [] + [rest[0]], Resized(alloc, base, size, req), rest[1..]);
      }
    }
  }

  method DoCut(b: Buf, op: Op) returns (done: bool)
    requires b.Valid() && Sane(op) && b.error == 0 && b.Terminated() && InRange(b, op)
    requires op.DropFront? || op.DropBack? || op.Clear? || op.SetScheme?
    modifies b, b.block
    ensures b.Valid() && (b.error == 0 ==> b.Terminated()) && (b.block == old(b.block) || fresh(b.block))
    ensures done == old(Accepts(b, op))
    ensures done ==> b.Contents() == Meaning(op, old(b.Contents()))
    ensures !done ==> b.Contents() == old(b.Contents())
  {
    hide RoomCode, Resizes, Resized, Grown, FirstRoom, Catted;
    done := true;
    match op {
      case DropFront(n) =>
        var k := b.Shrink(n);
      case DropBack(n) =>
        var r := b.Erase(n);
      case Clear =>
        b.Empty();
      case SetScheme(scheme) =>
        var r := b.SetAllocationScheme(scheme);
    }
  }

  method DoRoom(b: Buf, op: Op) returns (done: bool)
    requires b.Valid() && Sane(op) && b.error == 0 && b.Terminated() && InRange(b, op)
    requires op.Reserve? || op.MakeFree?
    modifies b, b.block
    ensures b.Valid() && (b.error == 0 ==> b.Terminated()) && (b.block == old(b.block) || fresh(b.block))
    ensures done == old(Accepts(b, op))
    ensures done ==> b.Contents() == Meaning(op, old(b.Contents()))
    ensures !done ==> b.Contents() == old(b.Contents())
  {
    hide RoomCode, Resizes, Resized, Grown, FirstRoom, Catted;
    if op.Reserve? {
      done := b.Resize(op.n);
    } else {
      var r := b.Grow(op.n);
      done := op.n == 0 || (b.error == 0 && b.alloc != Immutable);
    }
  }

  /** One operation, if it is in range */
  method Do(b: Buf, op: Op) returns (outcome: Outcome)
    requires b.Valid() && Sane(op) && (b.error == 0 ==> b.Terminated())
    modifies b, b.block
    ensures b.Valid() && (b.error == 0 ==> b.Terminated()) && (b.block == old(b.block) || fresh(b.block))
    ensures outcome == old(Expected(b, op))
    ensures b.Contents() == After(op, outcome, old(b.Contents()))
  {
    hide InRange, RoomCode, Resizes, Grown, Catted, Buf.Valid, Buf.Terminated, Meaning;
    if b.error != 0 || !InRange(b, op) {
      return Failed;
    }
    var done;
    match op {
      case Append(_) => done := DoAdd(b, op);
      case Prepend(_) => done := DoAdd(b, op);
      case CatString(_) => done := DoCat(b, op);
      case CCatString(_) =>
        outcome := DoCCat(b, op);
        return;
      case Reserve(_) => done := DoRoom(b, op);
      case MakeFree(_) => done := DoRoom(b, op);
      case _ => done := DoCut(b, op);
    }
    outcome := if done then Done else Failed;
  }

  /** Any run on an allocated buffer, under any schemes: the contents are the fold of the operations and their outcomes. */
  method Run(b: Buf, ops: seq<Op>) returns (outcomes: seq<Outcome>)
    requires b.Valid() && AllSane(ops) && (b.error == 0 ==> b.Terminated())
    modifies b, b.block
    ensures b.Valid() && (b.error == 0 ==> b.Terminated())
    ensures |outcomes| == |ops| && b.Contents() == Folded(ops, outcomes, old(b.Contents()))
  {
    outcomes := [];
    for i := 0 to |ops|
      invariant b.Valid() && (b.error == 0 ==> b.Terminated()) && (b.block == old(b.block) || fresh(b.block))
      invariant |outcomes| == i && b.Contents() == Folded(ops, outcomes, old(b.Contents()))
    {
      var outcome := Do(b, ops[i]);
      ghost var was := outcomes;
      outcomes := outcomes + [outcome];
      assert outcomes[..i] == was;
    }
  }
}
