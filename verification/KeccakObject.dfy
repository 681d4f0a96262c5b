/** The Keccak permutation in place on split lanes (js/sha3.js:16-17). */
module KeccakObject {
  import opened JsNumber
  import opened Lanes
  import opened Keccak

  function Vals(s: seq<Lane>): (r: seq<nat>)
    ensures |r| == |s|
  {
    seq(|s|, i requires 0 <= i < |s| => s[i].Val())
  }

  // ----- operations on lanes

  function XorLane(p: Lane, q: Lane): Lane {
    Lane(Bits(Xor, p.high, q.high), Bits(Xor, p.low, q.low))
  }

  lemma XorLaneVal(p: Lane, q: Lane)
    ensures XorLane(p, q).Val() == Xor64(p.Val(), q.Val())
  {
    LaneBits(Xor, p, q);
  }

  /** `l.high ^ ~m.high & d.high`, and the same below. */
  function ChiLane(l: Lane, m: Lane, d: Lane): Lane {
    Lane(Bits(Xor, l.high, Bits(And, Not(m.high), d.high)), Bits(Xor, l.low, Bits(And, Not(m.low), d.low)))
  }

  lemma ChiLaneVal(l: Lane, m: Lane, d: Lane)
    ensures ChiLane(l, m, d).Val() == Xor64(l.Val(), And64(Not64(m.Val()), d.Val()))
  {
    hide Lane.Val, Not64, Not, Bitwise, Bits;
    var n := Lane(Not(m.high), Not(m.low));
    var a := Lane(Bits(And, n.high, d.high), Bits(And, n.low, d.low));
    LaneNot(m);
    LaneBits(And, n, d);
    LaneBits(Xor, l, a);
  }

  // ----- the column parities

  /** What the inner loop has gathered after `n` lanes of column `x`. */
  function Gathered(a: seq<nat>, x: nat, n: nat): nat
    requires Lanes25(a) && x < 5 && n <= 5
  {
    if n == 0 then 0 else Xor64(Gathered(a, x, n - 1), a[At(x, n - 1)])
  }

  lemma GatheredNext(a: seq<nat>, x: nat, n: nat)
    requires Lanes25(a) && x < 5 && 0 < n <= 5
    ensures Gathered(a, x, n) == Xor64(Gathered(a, x, n - 1), a[x + 5 * (n - 1)])
  {
    hide Xor64;
  }

  lemma XorOntoZero(v: nat)
    requires v < TWO64
    ensures Xor64(0, v) == v
  {
    hide Bitwise;
    Pow2Values();
    BitwiseZero(v, 64);
  }

  lemma NothingGathered(a: seq<nat>, x: nat)
    requires Lanes25(a) && x < 5
    ensures Gathered(a, x, 0) == 0
  {
  }

  lemma GatheredAll(a: seq<nat>, x: nat)
    requires Lanes25(a) && x < 5 && a[x] < TWO64
    ensures Gathered(a, x, 5) == Parity(a, x)
  {
    hide Xor64, Gathered;
    NothingGathered(a, x);
    XorOntoZero(a[x]);
    GatheredNext(a, x, 1);
    GatheredNext(a, x, 2);
    GatheredNext(a, x, 3);
    GatheredNext(a, x, 4);
    GatheredNext(a, x, 5);
  }

  lemma OnlyPlace(x: nat, y: nat)
    ensures forall i: nat :: X(i) == x && Y(i) == y ==> i == At(x, y)
  {
    forall i: nat | X(i) == x && Y(i) == y
      ensures i == At(x, y)
    {
      Place(i);
    }
  }

  class KeccakState {
    const lanes: array<Lane>
    // scratch shared by all calls, and the three tables made at load time
    const temp: array<Lane>
    const offsets: array<nat>
    const targets: array<nat>
    const constants: array<Lane>

    ghost predicate Valid()
      reads offsets, targets, constants
    {
      && lanes.Length == temp.Length == offsets.Length == targets.Length == 25 && constants.Length == 24
      && lanes != temp && lanes != constants && temp != constants && offsets != targets
      && (forall m :: 0 < m < 25 ==> offsets[m] == Offset(m))
      && (forall m :: 0 <= m < 25 ==> targets[m] == PiTarget(m))
      && (forall i :: 0 <= i < 24 ==> constants[i].Val() == RoundConstant(i))
    }

    constructor ()
      ensures Valid() && fresh(lanes) && fresh(temp) && fresh(offsets) && fresh(targets) && fresh(constants)
      ensures lanes[..] == seq(25, _ => Lane(0, 0))
    {
      hide Offset, PiTarget, RoundConstant;
      var s := BuildOffsets();
      var x := BuildTargets();
      var y := BuildRoundConstants();
      offsets, targets, constants := s, x, y;
      lanes := new Lane[25](_ => Lane(0, 0));
      temp := new Lane[25](_ => Lane(0, 0));
    }

    method Parities()
      requires Valid()
      modifies temp
      ensures Valid() && forall x :: 0 <= x < 5 ==> temp[x].Val() == Parity(Vals(lanes[..]), x)
    {
      hide Lane.Val, Bits, Xor64, At, Parity;
      ghost var v := Vals(lanes[..]);
      for h := 0 to 5
        invariant forall x :: 0 <= x < h ==> temp[x].Val() == Parity(v, x)
      {
        var l, d := 0, 0;
        ZeroLane();
        for k := 0 to 5
          invariant forall x :: 0 <= x < h ==> temp[x].Val() == Parity(v, x)
          invariant Lane(l, d).Val() == Gathered(v, h, k)
        {
          var g := lanes[At(h, k)];
          XorLaneVal(Lane(l, d), g);
          l, d := Bits(Xor, l, g.high), Bits(Xor, d, g.low);
        }
        GatheredAll(v, h);
        temp[h] := Lane(l, d);
      }
    }

    method ThetaInPlace()
      requires Valid()
      modifies lanes, temp
      ensures Valid() && Vals(lanes[..]) == Theta(old(Vals(lanes[..])))
    {
      hide Lane.Val, Bits, Xor64, At, X, Y, Parity, Rotl64, XorLane;
      ghost var v := Vals(lanes[..]);
      Parities();
      for h := 0 to 5
        invariant forall x :: 0 <= x < 5 ==> temp[x].Val() == Parity(v, x)
        invariant forall i :: 0 <= i < 25 ==> lanes[i].Val() == if X(i) < h then Xor64(v[i], Effect(v, X(i))) else v[i]
      {
        var effect := XorLane(temp[(h + 4) % 5], RotateSplit(temp[(h + 1) % 5], 1));
        XorLaneVal(temp[(h + 4) % 5], RotateSplit(temp[(h + 1) % 5], 1));
        RotateSplitVal(temp[(h + 1) % 5], 1);
        assert effect.Val() == Effect(v, h);
        for k := 0 to 5
          invariant forall x :: 0 <= x < 5 ==> temp[x].Val() == Parity(v, x)
          invariant forall i :: 0 <= i < 25 ==>
            lanes[i].Val() == if X(i) < h || (X(i) == h && Y(i) < k) then Xor64(v[i], Effect(v, X(i))) else v[i]
        {
          Coordinates(h, k);
          OnlyPlace(h, k);
          XorLaneVal(lanes[At(h, k)], effect);
          lanes[At(h, k)] := XorLane(lanes[At(h, k)], effect);
        }
      }
    }

    /** The rotations and moves of one round, from `lanes` into `temp`. */
    method RhoPi()
      requires Valid()
      modifies temp
      ensures Valid() && Vals(temp[..]) == Pi(Rho(Vals(lanes[..])))
    {
      hide Lane.Val, RotateSplit, Rotl64, Offset, PiTarget, PiSource;
      ghost var v := Vals(lanes[..]);
      MovesInvert();
      for m := 1 to 25
        invariant forall j :: 0 < j < m ==> temp[PiTarget(j)].Val() == Rotl64(v[j], Offset(j))
      {
        var g, k := lanes[m], offsets[m];
        OffsetsAvoid32(m);
        RotateSplitVal(g, k);
        temp[targets[m]] := RotateSplit(g, k);
      }
      PiFixesOrigin(0);
      temp[0] := lanes[0];
      RotatesNothing(v[0]);
      OriginOffset();
      forall i | 0 <= i < 25
        ensures temp[i].Val() == Rho(v)[PiSource(i)]
      {
        PiFixesOrigin(PiSource(i));
        assert PiTarget(PiSource(i)) == i;
      }
    }

    method ChiInPlace()
      requires Valid()
      modifies lanes
      ensures Valid() && Vals(lanes[..]) == Chi(Vals(temp[..]))
    {
      hide Lane.Val, At, X, Y, ChiLane, Xor64, And64, Not64;
      ghost var w := Vals(temp[..]);
      for h := 0 to 5
        invariant temp[..] == old(temp[..])
        invariant forall i :: 0 <= i < 25 && X(i) < h ==> lanes[i].Val() == Chi(w)[i]
      {
        for k := 0 to 5
          invariant temp[..] == old(temp[..])
          invariant forall i :: 0 <= i < 25 && (X(i) < h || (X(i) == h && Y(i) < k)) ==> lanes[i].Val() == Chi(w)[i]
        {
          Coordinates(h, k);
          OnlyPlace(h, k);
          var l, m, d := temp[At(h, k)], temp[At((h + 1) % 5, k)], temp[At((h + 2) % 5, k)];
          ChiLaneVal(l, m, d);
          lanes[At(h, k)] := ChiLane(l, m, d);
        }
      }
    }

    method IotaInPlace(f: nat)
      requires Valid() && f < 24
      modifies lanes
      ensures Valid() && Vals(lanes[..]) == Iota(old(Vals(lanes[..])), f)
    {
      hide Lane.Val, XorLane, Xor64, RoundConstant;
      XorLaneVal(lanes[0], constants[f]);
      lanes[0] := XorLane(lanes[0], constants[f]);
    }

    /** The 24 rounds of `_doProcessBlock`: Keccak-f[1600] on the 64-bit lanes. */
    method Permute()
      requires Valid()
      modifies lanes, temp
      ensures Valid() && Vals(lanes[..]) == KeccakF(old(Vals(lanes[..])))
    {
      hide Theta, Rho, Pi, Chi, Iota, Lane.Val;
      ghost var v := Vals(lanes[..]);
      for f := 0 to 24
        invariant Vals(lanes[..]) == Rounds(v, f)
      {
        ThetaInPlace();
        RhoPi();
        ChiInPlace();
        IotaInPlace(f);
      }
    }
  }

  lemma MovesInvert()
    ensures forall m: nat :: m < 25 ==> PiSource(PiTarget(m)) == m
    ensures forall m: nat :: m < 25 ==> PiTarget(PiSource(m)) == m
  {
    hide PiSource, PiTarget;
    forall m: nat | m < 25
      ensures PiSource(PiTarget(m)) == m && PiTarget(PiSource(m)) == m
    {
      PiTargetInverts(m);
    }
  }

  lemma OriginOffset()
    ensures Offset(0) == 0
  {
  }

  lemma ZeroLane()
    ensures Lane(0, 0).Val() == 0
  {
  }
}
