/**
 The SHA-512 block function on JavaScript numbers (js/rollups/hmac-sha512.js:15-23) against section 6.4.2 of FIPS 180-4.
 The code's sums are sums of integers here; `BlockExact` shows that JavaScript computes each of them exactly.
 */
module Sha512 {
  import Arithmetic
  import opened JsNumber
  import opened Lanes

  /** A constant of the code: both halves are unsigned 32-bit numbers. */
  type Constant = p: Lane | 0 <= p.high < TWO32 && 0 <= p.low < TWO32 witness Lane(0, 0)

  /** The eighty constants, js/rollups/hmac-sha512.js:15-19, in five rows of sixteen. */
  const K: seq<Constant> := K0 + K1 + K2 + K3 + K4

  const K0: seq<Constant> := [
    Lane(1116352408, 3609767458), Lane(1899447441, 602891725), Lane(3049323471, 3964484399), Lane(3921009573, 2173295548),
    Lane(961987163, 4081628472), Lane(1508970993, 3053834265), Lane(2453635748, 2937671579), Lane(2870763221, 3664609560),
    Lane(3624381080, 2734883394), Lane(310598401, 1164996542), Lane(607225278, 1323610764), Lane(1426881987, 3590304994),
    Lane(1925078388, 4068182383), Lane(2162078206, 991336113), Lane(2614888103, 633803317), Lane(3248222580, 3479774868)
  ]

  const K1: seq<Constant> := [
    Lane(3835390401, 2666613458), Lane(4022224774, 944711139), Lane(264347078, 2341262773), Lane(604807628, 2007800933),
    Lane(770255983, 1495990901), Lane(1249150122, 1856431235), Lane(1555081692, 3175218132), Lane(1996064986, 2198950837),
    Lane(2554220882, 3999719339), Lane(2821834349, 766784016), Lane(2952996808, 2566594879), Lane(3210313671, 3203337956),
    Lane(3336571891, 1034457026), Lane(3584528711, 2466948901), Lane(113926993, 3758326383), Lane(338241895, 168717936)
  ]

  const K2: seq<Constant> := [
    Lane(666307205, 1188179964), Lane(773529912, 1546045734), Lane(1294757372, 1522805485), Lane(1396182291, 2643833823),
    Lane(1695183700, 2343527390), Lane(1986661051, 1014477480), Lane(2177026350, 1206759142), Lane(2456956037, 344077627),
    Lane(2730485921, 1290863460), Lane(2820302411, 3158454273), Lane(3259730800, 3505952657), Lane(3345764771, 106217008),
    Lane(3516065817, 3606008344), Lane(3600352804, 1432725776), Lane(4094571909, 1467031594), Lane(275423344, 851169720)
  ]

  const K3: seq<Constant> := [
    Lane(430227734, 3100823752), Lane(506948616, 1363258195), Lane(659060556, 3750685593), Lane(883997877, 3785050280),
    Lane(958139571, 3318307427), Lane(1322822218, 3812723403), Lane(1537002063, 2003034995), Lane(1747873779, 3602036899),
    Lane(1955562222, 1575990012), Lane(2024104815, 1125592928), Lane(2227730452, 2716904306), Lane(2361852424, 442776044),
    Lane(2428436474, 593698344), Lane(2756734187, 3733110249), Lane(3204031479, 2999351573), Lane(3329325298, 3815920427)
  ]

  const K4: seq<Constant> := [
    Lane(3391569614, 3928383900), Lane(3515267271, 566280711), Lane(3940187606, 3454069534), Lane(4118630271, 4000239992),
    Lane(116418474, 1914138554), Lane(174292421, 2731055270), Lane(289380356, 3203993006), Lane(460393269, 320620315),
    Lane(685471733, 587496836), Lane(852142971, 1086792851), Lane(1017036298, 365543100), Lane(1126000580, 2618297676),
    Lane(1288033470, 3409855158), Lane(1501505948, 4234509866), Lane(1607167915, 987167468), Lane(1816402316, 1246189591)
  ]

  /** js/rollups/hmac-sha512.js:19 */
  const INITIAL: seq<Constant> := [
    Lane(1779033703, 4089235720), Lane(3144134277, 2227873595), Lane(1013904242, 4271175723), Lane(2773480762, 1595750129),
    Lane(1359893119, 2917565137), Lane(2600822924, 725511199), Lane(528734635, 4215389547), Lane(1541459225, 327033209)
  ]

  // ----- section 6.4.2 of FIPS 180-4 on 64-bit words

  function Add64(x: nat, y: nat): (z: nat)
    ensures z < TWO64
  {
    (x + y) % TWO64
  }

  function Xor3(x: nat, y: nat, z: nat): nat {
    Xor64(Xor64(x, y), z)
  }

  function BigSigma0(x: nat): nat { Xor3(Rotr64(x, 28), Rotr64(x, 34), Rotr64(x, 39)) }
  function BigSigma1(x: nat): nat { Xor3(Rotr64(x, 14), Rotr64(x, 18), Rotr64(x, 41)) }
  function SmallSigma0(x: nat): nat { Xor3(Rotr64(x, 1), Rotr64(x, 8), High(x, 7)) }
  function SmallSigma1(x: nat): nat { Xor3(Rotr64(x, 19), Rotr64(x, 61), High(x, 6)) }

  function Ch(x: nat, y: nat, z: nat): nat {
    Xor64(And64(x, y), And64(Not64(x), z))
  }

  function Maj(x: nat, y: nat, z: nat): nat {
    Xor3(And64(x, y), And64(x, z), And64(y, z))
  }

  /** The message schedule of a block of sixteen words. */
  function W(m: seq<nat>, t: nat): nat
    requires |m| == 16
    decreases t, m
  {
    if t < 16 then m[t]
    else Add64(Add64(Add64(SmallSigma1(W(m, t - 2)), W(m, t - 7)), SmallSigma0(W(m, t - 15))), W(m, t - 16))
  }

  datatype Vars<T> = Vars(a: T, b: T, c: T, d: T, e: T, f: T, g: T, h: T)

  function Round(v: Vars<nat>, k: nat, w: nat): Vars<nat> {
    var t1 := Add64(Add64(Add64(Add64(v.h, BigSigma1(v.e)), Ch(v.e, v.f, v.g)), k), w);
    var t2 := Add64(BigSigma0(v.a), Maj(v.a, v.b, v.c));
    Vars(Add64(t1, t2), v.a, v.b, v.c, Add64(v.d, t1), v.e, v.f, v.g)
  }

  function Rounds(v: Vars<nat>, m: seq<nat>, t: nat): Vars<nat>
    requires |m| == 16 && t <= 80
    decreases t, m
  {
    if t == 0 then v else Round(Rounds(v, m, t - 1), K[t - 1].Val(), W(m, t - 1))
  }

  function Compress(v: Vars<nat>, m: seq<nat>): Vars<nat>
    requires |m| == 16
  {
    var r := Rounds(v, m, 80);
    Vars(Add64(v.a, r.a), Add64(v.b, r.b), Add64(v.c, r.c), Add64(v.d, r.d),
         Add64(v.e, r.e), Add64(v.f, r.f), Add64(v.g, r.g), Add64(v.h, r.h))
  }

  // ----- magnitudes

  predicate Within(p: Lane, b: int) {
    -b <= p.high <= b && -b <= p.low <= b
  }

  predicate AllWithin(v: Vars<Lane>, b: int) {
    && Within(v.a, b) && Within(v.b, b) && Within(v.c, b) && Within(v.d, b)
    && Within(v.e, b) && Within(v.f, b) && Within(v.g, b) && Within(v.h, b)
  }

  /** How far a half of the hash state may have grown: the first passes add two halves that no pass has truncated yet. */
  const LIMIT: int := 0x10_0000_0000_0000 - 5 * TWO31 / 2 - 3

  /** So many blocks, which add at most 2^31 + 1 each, stay below the limit. */
  const BLOCKS: nat := 0x1F_FFFC

  /** How far a half of a schedule word may have grown: 2^40. */
  const SCHEDULE_LIMIT: int := 0x100_0000_0000

  // ----- the code

  /** The sum of the halves, and of a carry, is exact in JavaScript's numbers. */
  predicate Room(p: Lane, q: Lane) {
    && Exact(p.high) && Exact(p.low) && Exact(q.high) && Exact(q.low)
    && Exact(p.low + q.low) && Exact(p.high + q.high) && Exact(p.high + q.high + 1)
  }

  /** A sum whose carry is found by comparing with the first summand. */
  function AddFirst(p: Lane, q: Lane): Lane {
    var low := p.low + q.low;
    Lane(p.high + q.high + Carry(low, p.low), low)
  }

  /** A sum whose carry is found by comparing with the second summand. */
  function AddSecond(p: Lane, q: Lane): Lane {
    var low := p.low + q.low;
    Lane(p.high + q.high + Carry(low, q.low), low)
  }

  lemma AddVal(p: Lane, q: Lane)
    ensures AddFirst(p, q).Val() == Add64(p.Val(), q.Val())
    ensures AddSecond(p, q) == AddFirst(p, q)
  {
    hide Lane.Val;
    CarrySum(p, q, p.high + q.high + Carry(p.low + q.low, p.low), p.low + q.low);
    SameCarry(p.low, q.low);
  }

  lemma SameCarry(x: int, y: int)
    ensures Carry(x + y, x) == Carry(x + y, y)
  {
    UnsignedSum(x, y);
  }

  lemma AddWithin(p: Lane, q: Lane, a: int, b: int)
    requires Within(p, a) && Within(q, b) && a + b + 1 < TWO53 && 0 <= a && 0 <= b
    ensures Room(p, q) && Within(AddFirst(p, q), a + b + 1) && Within(AddSecond(p, q), a + b + 1)
  {
  }

  function Truncated(p: Lane): (r: Lane)
    ensures Within(r, TWO31) && r.Val() == p.Val()
  {
    SignedKeeps(p.high);
    SignedKeeps(p.low);
    Lane(Signed(p.high), Signed(p.low))
  }

  function XorLanes(p: Lane, q: Lane): (r: Lane)
    ensures Within(r, TWO31) && r.Val() == Xor64(p.Val(), q.Val())
  {
    LaneBits(Xor, p, q);
    Lane(Bits(Xor, p.high, q.high), Bits(Xor, p.low, q.low))
  }

  function AndLanes(p: Lane, q: Lane): (r: Lane)
    ensures Within(r, TWO31) && r.Val() == And64(p.Val(), q.Val())
  {
    LaneBits(And, p, q);
    Lane(Bits(And, p.high, q.high), Bits(And, p.low, q.low))
  }

  function NotLane(p: Lane): (r: Lane)
    ensures r.Val() == Not64(p.Val())
  {
    LaneNot(p);
    Lane(Not(p.high), Not(p.low))
  }

  function Rotate(p: Lane, k: nat): (r: Lane)
    requires 0 < k < 64 && k != 32
    ensures r.Val() == Rotr64(p.Val(), k)
  {
    RotateLaneVal(p, k);
    RotateLane(p, k)
  }

  function Shift(p: Lane, k: nat): (r: Lane)
    requires 0 < k < 32
    ensures r.Val() == High(p.Val(), k)
  {
    ShiftLaneVal(p, k);
    ShiftLane(p, k)
  }

  function Sum0(p: Lane): (r: Lane)
    ensures Within(r, TWO31) && r.Val() == BigSigma0(p.Val())
  {
    XorLanes(XorLanes(Rotate(p, 28), Rotate(p, 34)), Rotate(p, 39))
  }

  function Sum1(p: Lane): (r: Lane)
    ensures Within(r, TWO31) && r.Val() == BigSigma1(p.Val())
  {
    XorLanes(XorLanes(Rotate(p, 14), Rotate(p, 18)), Rotate(p, 41))
  }

  function Gamma0(p: Lane): (r: Lane)
    ensures Within(r, TWO31) && r.Val() == SmallSigma0(p.Val())
  {
    XorLanes(XorLanes(Rotate(p, 1), Rotate(p, 8)), Shift(p, 7))
  }

  function Gamma1(p: Lane): (r: Lane)
    ensures Within(r, TWO31) && r.Val() == SmallSigma1(p.Val())
  {
    XorLanes(XorLanes(Rotate(p, 19), Rotate(p, 61)), Shift(p, 6))
  }

  /** `s & W ^ ~s & X` */
  function Choose(p: Lane, q: Lane, r: Lane): (s: Lane)
    ensures Within(s, TWO31) && s.Val() == Ch(p.Val(), q.Val(), r.Val())
  {
    XorLanes(AndLanes(p, q), AndLanes(NotLane(p), r))
  }

  /** `r & G ^ r & H ^ G & H` */
  function Majority(p: Lane, q: Lane, r: Lane): (s: Lane)
    ensures Within(s, TWO31) && s.Val() == Maj(p.Val(), q.Val(), r.Val())
  {
    XorLanes(XorLanes(AndLanes(p, q), AndLanes(p, r)), AndLanes(q, r))
  }

  /** `h` and `w` of one pass: the first sum of section 6.4.2. */
  function FirstSum(v: Vars<Lane>, k: Lane, w: Lane): Lane {
    AddSecond(AddSecond(AddSecond(AddFirst(v.h, Sum1(v.e)), Choose(v.e, v.f, v.g)), k), w)
  }

  /** `g` and `A` of one pass: the second sum. */
  function SecondSum(v: Vars<Lane>): Lane {
    AddFirst(Sum0(v.a), Majority(v.a, v.b, v.c))
  }

  /** One pass of the loop after the schedule word. */
  function Pass(v: Vars<Lane>, k: Lane, w: Lane): Vars<Lane> {
    var t1 := FirstSum(v, k, w);
    Vars(Truncated(AddFirst(t1, SecondSum(v))), v.a, v.b, v.c, Truncated(AddFirst(v.d, t1)), v.e, v.f, v.g)
  }

  /** Every sum of a pass has room. */
  predicate PassRoom(v: Vars<Lane>, k: Lane, w: Lane) {
    var h1 := AddFirst(v.h, Sum1(v.e));
    var h2 := AddSecond(h1, Choose(v.e, v.f, v.g));
    var h3 := AddSecond(h2, k);
    && Room(v.h, Sum1(v.e)) && Room(h1, Choose(v.e, v.f, v.g)) && Room(h2, k) && Room(h3, w)
    && Room(Sum0(v.a), Majority(v.a, v.b, v.c))
    && Room(FirstSum(v, k, w), SecondSum(v)) && Room(v.d, FirstSum(v, k, w))
  }

  lemma FirstSumExact(h: Lane, s: Lane, c: Lane, k: Lane, w: Lane, b: int, d: int)
    requires Within(h, b) && Within(s, TWO31) && Within(c, TWO31) && Within(k, TWO32) && Within(w, d)
    requires 0 <= b && 0 <= d && b + d + 2 * TWO32 + 4 < TWO53
    ensures var h1 := AddFirst(h, s);
            var h2 := AddSecond(h1, c);
            var h3 := AddSecond(h2, k);
            && Room(h, s) && Room(h1, c) && Room(h2, k) && Room(h3, w)
            && Within(AddSecond(h3, w), b + d + 2 * TWO32 + 4)
  {
    hide AddFirst, AddSecond, Room, Within;
    var h1 := AddFirst(h, s);
    var h2 := AddSecond(h1, c);
    AddWithin(h, s, b, TWO31);
    AddWithin(h1, c, b + TWO31 + 1, TWO31);
    AddWithin(h2, k, b + TWO32 + 2, TWO32);
    AddWithin(AddSecond(h2, k), w, b + 2 * TWO32 + 3, d);
  }

  lemma LastSumsExact(p: Lane, t1: Lane, s: Lane, m: Lane, b: int, e: int)
    requires Within(p, b) && Within(t1, e) && Within(s, TWO31) && Within(m, TWO31)
    requires 0 <= b && 0 <= e && b + e + 1 < TWO53 && e + TWO32 + 2 < TWO53
    ensures Room(s, m) && Room(t1, AddFirst(s, m)) && Room(p, t1)
  {
    hide AddFirst, AddSecond, Room, Within;
    AddWithin(s, m, TWO31, TWO31);
    AddWithin(t1, AddFirst(s, m), e, TWO32 + 1);
    AddWithin(p, t1, b, e);
  }

  /**
   Every sum of a pass is exact if twice the bound of the two values that it adds leaves room for the schedule word and the
   rest.
   */
  lemma PassExact(v: Vars<Lane>, k: Lane, w: Lane, b: int, d: int)
    requires Within(k, TWO32) && Within(v.d, b) && Within(v.h, b) && Within(w, d)
    requires 0 <= b && 0 <= d && 2 * b + d + 2 * TWO32 + 5 < TWO53 && b + d + 3 * TWO32 + 6 < TWO53
    ensures PassRoom(v, k, w)
  {
    hide AddFirst, AddSecond, Sum0, Sum1, Choose, Majority, Room, Within, Lane.Val, BigSigma0, BigSigma1, Ch, Maj;
    FirstSumExact(v.h, Sum1(v.e), Choose(v.e, v.f, v.g), k, w, b, d);
    LastSumsExact(v.d, FirstSum(v, k, w), Sum0(v.a), Majority(v.a, v.b, v.c), b, b + d + 2 * TWO32 + 4);
  }

  lemma PassWithin(v: Vars<Lane>, k: Lane, w: Lane)
    requires AllWithin(v, LIMIT)
    ensures AllWithin(Pass(v, k, w), LIMIT)
  {
    hide AddFirst, FirstSum, SecondSum, Truncated, Lane.Val;
  }

  function Vals(v: Vars<Lane>): Vars<nat> {
    Vars(v.a.Val(), v.b.Val(), v.c.Val(), v.d.Val(), v.e.Val(), v.f.Val(), v.g.Val(), v.h.Val())
  }

  lemma PassIsRound(v: Vars<Lane>, k: Lane, w: Lane)
    ensures Vals(Pass(v, k, w)) == Round(Vals(v), k.Val(), w.Val())
  {
    hide Add64, BigSigma0, BigSigma1, Ch, Maj, AddFirst, AddSecond, Sum0, Sum1, Choose, Majority, Truncated, Lane.Val;
    var h1 := AddFirst(v.h, Sum1(v.e));
    var h2 := AddSecond(h1, Choose(v.e, v.f, v.g));
    var h3 := AddSecond(h2, k);
    AddVal(v.h, Sum1(v.e));
    AddVal(h1, Choose(v.e, v.f, v.g));
    AddVal(h2, k);
    AddVal(h3, w);
    AddVal(Sum0(v.a), Majority(v.a, v.b, v.c));
    AddVal(FirstSum(v, k, w), SecondSum(v));
    AddVal(v.d, FirstSum(v, k, w));
  }

  // ----- the schedule

  function Group(t: nat): nat {
    if t < 16 then 1 else 2 + (t - 16) / 7
  }

  /** A bound for the halves of the schedule words of one group of seven. */
  function Cap(j: nat): (c: int)
    ensures TWO31 <= c
  {
    if j < 2 then TWO31 else Cap(j - 1) + Cap(j - 2) + 2 * TWO31 + 3
  }

  lemma {:induction false} CapMonotone(i: nat, j: nat)
    requires i <= j
    ensures Cap(i) <= Cap(j)
    decreases j
  {
    if i < j {
      CapMonotone(i, j - 1);
    }
  }

  /** Untruncated sums over sixty-four steps stay below 2^40. */
  lemma CapBound(t: nat)
    requires t < 80
    ensures Cap(Group(t)) <= SCHEDULE_LIMIT
  {
    assert Group(t) <= 11;
    CapMonotone(Group(t), 11);
    assert Cap(11) <= SCHEDULE_LIMIT;
  }

  predicate ScheduleWithin(ws: seq<Lane>) {
    |ws| <= 80 && forall t: nat :: t < |ws| ==> Within(ws[t], Cap(Group(t)))
  }

  lemma EarlierWords(ws: seq<Lane>)
    requires ScheduleWithin(ws) && 16 <= |ws| < 80
    ensures Group(|ws|) >= 2
    ensures var t := |ws|;
            && Within(ws[t - 7], Cap(Group(t) - 1)) && Within(ws[t - 16], Cap(Group(t) - 2))
            && Cap(Group(t)) == Cap(Group(t) - 1) + Cap(Group(t) - 2) + 2 * TWO31 + 3
            && Cap(Group(t)) <= SCHEDULE_LIMIT
  {
    var t := |ws|;
    assert Within(ws[t - 7], Cap(Group(t - 7)));
    assert Within(ws[t - 16], Cap(Group(t - 16)));
    CapMonotone(Group(t - 7), Group(t) - 1);
    if t >= 32 {
      CapMonotone(Group(t - 16), Group(t) - 2);
    }
    CapBound(t);
  }

  /** The else branch of the schedule: `k[t]` from `k[t - 15]`, `k[t - 2]`, `k[t - 7]` and `k[t - 16]`. */
  function NextWord(w15: Lane, w2: Lane, w7: Lane, w16: Lane): Lane {
    AddSecond(AddSecond(AddFirst(Gamma0(w15), w7), Gamma1(w2)), w16)
  }

  lemma AppendWithin(ws: seq<Lane>, w: Lane)
    requires ScheduleWithin(ws) && |ws| < 80 && Within(w, Cap(Group(|ws|)))
    ensures ScheduleWithin(ws + [w])
  {
    hide Cap, Group;
  }

  lemma NextSumsExact(v15: Lane, v2: Lane, w7: Lane, w16: Lane, a: int, b: int)
    requires Within(v15, TWO31) && Within(v2, TWO31) && Within(w7, a) && Within(w16, b)
    requires 0 <= a && 0 <= b && a + b < TWO53 - TWO32 - 3
    ensures var g1 := AddFirst(v15, w7);
            var g2 := AddSecond(g1, v2);
            && Room(v15, w7) && Room(g1, v2) && Room(g2, w16)
            && Within(AddSecond(g2, w16), a + b + 2 * TWO31 + 3)
  {
    hide AddFirst, AddSecond, Lane.Val, Room;
    var g1 := AddFirst(v15, w7);
    AddWithin(v15, w7, TWO31, a);
    AddWithin(g1, v2, TWO31 + a + 1, TWO31);
    AddWithin(AddSecond(g1, v2), w16, 2 * TWO31 + a + 2, b);
  }

  /** Every sum of the next schedule word has room. */
  predicate NextRoom(ws: seq<Lane>)
    requires 16 <= |ws|
  {
    var t := |ws|;
    var g1 := AddFirst(Gamma0(ws[t - 15]), ws[t - 7]);
    var g2 := AddSecond(g1, Gamma1(ws[t - 2]));
    Room(Gamma0(ws[t - 15]), ws[t - 7]) && Room(g1, Gamma1(ws[t - 2])) && Room(g2, ws[t - 16])
  }

  /** Every sum of the schedule is exact, although no half is ever truncated. */
  lemma NextWordExact(ws: seq<Lane>)
    requires ScheduleWithin(ws) && 16 <= |ws| < 80
    ensures NextRoom(ws)
    ensures var t := |ws|; ScheduleWithin(ws + [NextWord(ws[t - 15], ws[t - 2], ws[t - 7], ws[t - 16])])
  {
    hide AddFirst, AddSecond, Gamma0, Gamma1, Lane.Val, Room, Cap, Group, Within, ScheduleWithin;
    EarlierWords(ws);
    var t := |ws|;
    var a, b := Cap(Group(t) - 1), Cap(Group(t) - 2);
    NextSumsExact(Gamma0(ws[t - 15]), Gamma1(ws[t - 2]), ws[t - 7], ws[t - 16], a, b);
    assert Cap(Group(t)) == a + b + 2 * TWO31 + 3;
    AppendWithin(ws, NextWord(ws[t - 15], ws[t - 2], ws[t - 7], ws[t - 16]));
  }

  lemma AddCommutes(w: nat, x: nat, y: nat, z: nat)
    ensures Add64(Add64(Add64(w, x), y), z) == Add64(Add64(Add64(y, x), w), z)
  {
    AddModulo(w + x, y);
    AddModulo(y + x, w);
  }

  lemma AddModulo(x: nat, y: nat)
    ensures Add64(x % TWO64, y) == (x + y) % TWO64
  {
    Arithmetic.QuotientShift(x % TWO64 + y, x / TWO64, TWO64);
  }

  lemma NextWordIsW(ws: seq<Lane>, m: seq<nat>)
    requires 16 <= |ws| < 80 && |m| == 16
    requires forall t: nat :: t < |ws| ==> ws[t].Val() == W(m, t)
    ensures var t := |ws|; NextWord(ws[t - 15], ws[t - 2], ws[t - 7], ws[t - 16]).Val() == W(m, t)
  {
    hide Add64, SmallSigma0, SmallSigma1, AddFirst, AddSecond, Gamma0, Gamma1, Lane.Val;
    var t := |ws|;
    assert ws[t - 15].Val() == W(m, t - 15) && ws[t - 7].Val() == W(m, t - 7);
    assert ws[t - 2].Val() == W(m, t - 2) && ws[t - 16].Val() == W(m, t - 16);
    var g1 := AddFirst(Gamma0(ws[t - 15]), ws[t - 7]);
    var g2 := AddSecond(g1, Gamma1(ws[t - 2]));
    AddVal(Gamma0(ws[t - 15]), ws[t - 7]);
    AddVal(g1, Gamma1(ws[t - 2]));
    AddVal(g2, ws[t - 16]);
    AddCommutes(SmallSigma0(W(m, t - 15)), W(m, t - 7), SmallSigma1(W(m, t - 2)), W(m, t - 16));
  }

  // ----- one block

  /** `a[b + 2 * t] | 0` and `a[b + 2 * t + 1] | 0` */
  function BlockLane(a: seq<int>, t: nat): Lane
    requires |a| == 32 && t < 16
  {
    Lane(Signed(a[2 * t]), Signed(a[2 * t + 1]))
  }

  /** The sixteen 64-bit words of a block of thirty-two. */
  function BlockWords(a: seq<int>): (m: seq<nat>)
    requires |a| == 32
    ensures |m| == 16 && forall t: nat :: t < 16 ==> m[t] == Lane(a[2 * t], a[2 * t + 1]).Val()
  {
    seq(16, t requires 0 <= t < 16 => Lane(a[2 * t], a[2 * t + 1]).Val())
  }

  function ScheduleWord(ws: seq<Lane>, a: seq<int>): Lane
    requires |a| == 32
  {
    var t := |ws|;
    if t < 16 then BlockLane(a, t) else NextWord(ws[t - 15], ws[t - 2], ws[t - 7], ws[t - 16])
  }

  /** The schedule array after `t` passes. */
  function Schedule(a: seq<int>, t: nat): (ws: seq<Lane>)
    requires |a| == 32
    ensures |ws| == t
    decreases t, a
  {
    if t == 0 then [] else
    var ws := Schedule(a, t - 1);
    ws + [ScheduleWord(ws, a)]
  }

  /** The working variables after `t` passes. */
  function Passes(v: Vars<Lane>, a: seq<int>, t: nat): Vars<Lane>
    requires |a| == 32 && t <= 80
    decreases t, a
  {
    if t == 0 then v else Pass(Passes(v, a, t - 1), K[t - 1], ScheduleWord(Schedule(a, t - 1), a))
  }

  /** The closing additions: `O = f.low = O + n` and its seven companions. */
  function FeedForward(h: Vars<Lane>, r: Vars<Lane>): Vars<Lane> {
    Vars(AddSecond(h.a, r.a), AddSecond(h.b, r.b), AddSecond(h.c, r.c), AddSecond(h.d, r.d),
         AddSecond(h.e, r.e), AddSecond(h.f, r.f), AddSecond(h.g, r.g), AddSecond(h.h, r.h))
  }

  function Block(h: Vars<Lane>, a: seq<int>): Vars<Lane>
    requires |a| == 32
  {
    FeedForward(h, Passes(h, a, 80))
  }

  lemma {:induction false} ScheduleExact(a: seq<int>, t: nat)
    requires |a| == 32 && t <= 80
    ensures ScheduleWithin(Schedule(a, t))
    decreases t
  {
    hide NextWord, Cap, Group;
    if t > 0 {
      ScheduleExact(a, t - 1);
      var ws := Schedule(a, t - 1);
      if t - 1 < 16 {
        EarlyCap(t - 1);
        AppendWithin(ws, BlockLane(a, t - 1));
      } else {
        NextWordExact(ws);
      }
    }
  }

  lemma EarlyCap(t: nat)
    requires t < 16
    ensures Cap(Group(t)) == TWO31
  {
  }

  lemma {:induction false} ScheduleIsW(a: seq<int>, t: nat)
    requires |a| == 32 && t <= 80
    ensures forall i: nat :: i < t ==> Schedule(a, t)[i].Val() == W(BlockWords(a), i)
    decreases t
  {
    hide NextWord, Add64, SmallSigma0, SmallSigma1, Lane.Val;
    if t > 0 {
      ScheduleIsW(a, t - 1);
      var ws := Schedule(a, t - 1);
      if t - 1 < 16 {
        SignedLane(a[2 * (t - 1)], a[2 * (t - 1) + 1]);
      } else {
        NextWordIsW(ws, BlockWords(a));
      }
    }
  }

  lemma SignedLane(h: int, l: int)
    ensures Lane(Signed(h), Signed(l)).Val() == Lane(h, l).Val()
  {
    SignedKeeps(h);
    SignedKeeps(l);
  }

  lemma ConstantWithin(k: Constant)
    ensures Within(k, TWO32)
  {
  }

  lemma ScheduleWordWithin(a: seq<int>, t: nat)
    requires |a| == 32 && t < 80
    ensures Within(ScheduleWord(Schedule(a, t), a), SCHEDULE_LIMIT)
    ensures t < 16 ==> Within(ScheduleWord(Schedule(a, t), a), TWO31)
  {
    hide Cap, Group, ScheduleWord;
    ScheduleExact(a, t + 1);
    CapBound(t);
    if t < 16 {
      EarlyCap(t);
    }
    assert Schedule(a, t + 1)[t] == ScheduleWord(Schedule(a, t), a);
  }

  /** Every sum of pass `t`, and of its schedule word, has room. */
  predicate StepRoom(h: Vars<Lane>, a: seq<int>, t: nat)
    requires |a| == 32 && t < 80
  {
    && PassRoom(Passes(h, a, t), K[t], ScheduleWord(Schedule(a, t), a))
    && (t >= 16 ==> NextRoom(Schedule(a, t)))
  }

  /** The working variables that the passes so far have truncated to 32 bits. */
  predicate TruncatedAfter(v: Vars<Lane>, t: nat) {
    && (t >= 1 ==> Within(v.a, TWO31) && Within(v.e, TWO31))
    && (t >= 2 ==> Within(v.b, TWO31) && Within(v.f, TWO31))
    && (t >= 3 ==> Within(v.c, TWO31) && Within(v.g, TWO31))
    && (t >= 4 ==> Within(v.d, TWO31) && Within(v.h, TWO31))
  }

  lemma PassTruncates(v: Vars<Lane>, k: Lane, w: Lane, t: nat)
    requires TruncatedAfter(v, t)
    ensures TruncatedAfter(Pass(v, k, w), t + 1)
  {
    hide Within, AddFirst, FirstSum, SecondSum, Truncated;
  }

  lemma {:induction false} PassesTruncate(v: Vars<Lane>, a: seq<int>, t: nat)
    requires |a| == 32 && t <= 80
    ensures TruncatedAfter(Passes(v, a, t), t)
    decreases t
  {
    hide Pass, TruncatedAfter, ScheduleWord, Schedule;
    if t > 0 {
      PassesTruncate(v, a, t - 1);
      PassTruncates(Passes(v, a, t - 1), K[t - 1], ScheduleWord(Schedule(a, t - 1), a), t - 1);
    } else {
      NothingTruncated(v);
    }
  }

  lemma NothingTruncated(v: Vars<Lane>)
    ensures TruncatedAfter(v, 0)
  {
  }

  lemma LastWithin(v: Vars<Lane>, t: nat)
    requires AllWithin(v, LIMIT) && TruncatedAfter(v, t)
    ensures Within(v.d, if t < 4 then LIMIT else TWO31) && Within(v.h, if t < 4 then LIMIT else TWO31)
  {
  }

  lemma NextPass(v: Vars<Lane>, a: seq<int>, t: nat)
    requires |a| == 32 && t < 80
    ensures Passes(v, a, t + 1) == Pass(Passes(v, a, t), K[t], ScheduleWord(Schedule(a, t), a))
  {
    hide Pass, ScheduleWord, Schedule;
  }

  /** From the fourth pass on the two values a pass adds are truncated; before, the schedule word is. */
  lemma StepExact(h: Vars<Lane>, a: seq<int>, t: nat)
    requires |a| == 32 && t < 80 && AllWithin(Passes(h, a, t), LIMIT)
    ensures StepRoom(h, a, t) && AllWithin(Passes(h, a, t + 1), LIMIT)
  {
    hide Pass, PassRoom, NextRoom, AllWithin, Within, ScheduleWord, Schedule, ScheduleWithin, TruncatedAfter, Passes;
    var v, w := Passes(h, a, t), ScheduleWord(Schedule(a, t), a);
    PassesTruncate(h, a, t);
    LastWithin(v, t);
    NextPass(h, a, t);
    PassWithin(v, K[t], w);
    ConstantWithin(K[t]);
    ScheduleWordWithin(a, t);
    if t < 4 {
      PassExact(v, K[t], w, LIMIT, TWO31);
    } else {
      PassExact(v, K[t], w, TWO31, SCHEDULE_LIMIT);
    }
    if t >= 16 {
      ScheduleExact(a, t);
      NextWordExact(Schedule(a, t));
    }
  }

  lemma {:induction false} PassesExact(h: Vars<Lane>, a: seq<int>, t: nat)
    requires AllWithin(h, LIMIT) && |a| == 32 && t <= 80
    ensures AllWithin(Passes(h, a, t), LIMIT)
    ensures forall i: nat | i < t :: StepRoom(h, a, i)
    decreases t
  {
    hide AllWithin, StepRoom, Pass, Schedule, ScheduleWord;
    if t > 0 {
      PassesExact(h, a, t - 1);
      StepExact(h, a, t - 1);
    }
  }

  lemma {:induction false} PassesAreRounds(v: Vars<Lane>, a: seq<int>, t: nat)
    requires |a| == 32 && t <= 80
    ensures Vals(Passes(v, a, t)) == Rounds(Vals(v), BlockWords(a), t)
    decreases t
  {
    hide Pass, Round, Vals;
    if t > 0 {
      PassesAreRounds(v, a, t - 1);
      ScheduleIsW(a, t);
      var w := ScheduleWord(Schedule(a, t - 1), a);
      assert Schedule(a, t)[t - 1] == w;
      PassIsRound(Passes(v, a, t - 1), K[t - 1], w);
    }
  }

  /** Growth of the hash state, a block at a time. */
  function StateBound(n: nat): int {
    TWO32 + n * (TWO31 + 1)
  }

  lemma StateLimit(n: nat)
    requires n < BLOCKS
    ensures StateBound(n) <= LIMIT
  {
    Arithmetic.MulMonotone(n, BLOCKS - 1, TWO31 + 1);
  }

  /** Every closing sum has room. */
  predicate FeedRoom(h: Vars<Lane>, r: Vars<Lane>) {
    && Room(h.a, r.a) && Room(h.b, r.b) && Room(h.c, r.c) && Room(h.d, r.d)
    && Room(h.e, r.e) && Room(h.f, r.f) && Room(h.g, r.g) && Room(h.h, r.h)
  }

  /** No sum that the block function makes is rounded: in the schedule, in the eighty passes and at the end. */
  predicate BlockRoom(h: Vars<Lane>, a: seq<int>)
    requires |a| == 32
  {
    (forall t: nat | t < 80 :: StepRoom(h, a, t)) && FeedRoom(h, Passes(h, a, 80))
  }

  lemma FeedExact(h: Vars<Lane>, a: seq<int>, n: nat)
    requires |a| == 32 && AllWithin(h, StateBound(n)) && n < BLOCKS
    ensures AllWithin(Block(h, a), StateBound(n + 1)) && FeedRoom(h, Passes(h, a, 80))
  {
    hide Passes, AddSecond, Room, Within;
    StateLimit(n);
    PassesTruncate(h, a, 80);
    var r := Passes(h, a, 80);
    var b := StateBound(n);
    AddWithin(h.a, r.a, b, TWO31);
    AddWithin(h.b, r.b, b, TWO31);
    AddWithin(h.c, r.c, b, TWO31);
    AddWithin(h.d, r.d, b, TWO31);
    AddWithin(h.e, r.e, b, TWO31);
    AddWithin(h.f, r.f, b, TWO31);
    AddWithin(h.g, r.g, b, TWO31);
    AddWithin(h.h, r.h, b, TWO31);
  }

  /** One block: every sum is exact, and the state grows by at most 2^31 + 1. */
  lemma BlockExact(h: Vars<Lane>, a: seq<int>, n: nat)
    requires |a| == 32 && AllWithin(h, StateBound(n)) && n < BLOCKS
    ensures BlockRoom(h, a) && AllWithin(Block(h, a), StateBound(n + 1))
  {
    hide Passes, AllWithin, StepRoom, FeedRoom, StateBound, Block;
    StateLimit(n);
    WithinGrows(h, StateBound(n), LIMIT);
    PassesExact(h, a, 80);
    FeedExact(h, a, n);
  }

  lemma WithinGrows(v: Vars<Lane>, a: int, b: int)
    requires AllWithin(v, a) && a <= b
    ensures AllWithin(v, b)
  {
  }

  /** The block function on JavaScript numbers stands for the block function of FIPS 180-4. */
  lemma BlockIsCompress(h: Vars<Lane>, a: seq<int>)
    requires |a| == 32
    ensures Vals(Block(h, a)) == Compress(Vals(h), BlockWords(a))
  {
    hide Passes, Rounds, AddSecond, Add64, Lane.Val;
    PassesAreRounds(h, a, 80);
    var r := Passes(h, a, 80);
    AddVal(h.a, r.a);
    AddVal(h.b, r.b);
    AddVal(h.c, r.c);
    AddVal(h.d, r.d);
    AddVal(h.e, r.e);
    AddVal(h.f, r.f);
    AddVal(h.g, r.g);
    AddVal(h.h, r.h);
  }

  // ----- where exactness ends

  /** A state whose untruncated halves have grown as far as `BLOCKS` blocks may take them, and a block for it. */
  function GrownState(): Vars<Lane> {
    var z, b := Lane(0, 0), Lane(0, StateBound(BLOCKS));
    Vars(z, z, z, b, Lane(0, 0x80), z, Lane(0, TWO31 - 1), b)
  }

  function GrownBlock(): (a: seq<int>)
    ensures |a| == 32
  {
    seq(32, i => if i == 1 then TWO31 - 1 else 0)
  }

  lemma OneSided(x: int)
    requires 0 <= x < TWO31
    ensures Bits(Or, x, 0) == x && Bits(Or, 0, x) == x && Bits(Xor, x, 0) == x && Bits(Xor, 0, x) == x && Bits(And, x, 0) == 0
  {
    hide Bitwise, Pow2;
    Pow2Values();
    BitwiseZero(x, 32);
    AndOnes(x, 32);
  }

  lemma BitMoves()
    ensures Shr(0x80, 14) == 0 && Shr(0x80, 18) == 0 && Shr(0, 9) == 0
    ensures Shl(0, 18) == 0 && Shl(0, 14) == 0 && Shl(0x80, 23) == 0x4000_0000
  {
    assert Pow2(9) == 0x200;
    hide Pow2, High, Low;
    Pow2Adds(9, 5);
    Pow2Adds(9, 9);
    Pow2Adds(14, 9);
    assert Pow2(5) == 32;
    PartsUnique(0x80, 0, 0x80, 14);
    PartsUnique(0x80, 0, 0x80, 18);
    PartsUnique(0, 0, 0, 9);
  }

  lemma SumOfBit()
    ensures Sum1(Lane(0, 0x80)).low == 0x4000_0000
  {
    hide Bits, Shr, Shl;
    BitMoves();
    OneSided(0);
    OneSided(0x4000_0000);
  }

  lemma MaskedBits()
    ensures Bits(And, Not(0x80), TWO31 - 1) == TWO31 - 0x81
  {
    hide Bitwise, Pow2, High, Low, Not, Unsigned;
    var u := TWO32 - 0x81;
    NotOfBit();
    HalfOfWord();
    PartsUnique(u, 1, TWO31 - 0x81, 31);
    PartsUnique(TWO31 - 1, 0, TWO31 - 1, 31);
    BitwiseSplit(And, u, TWO31 - 1, 1, 31);
    AndOnes(1, 1);
    hide Up;
    AndOnes(u, 31);
    SignedSmall(TWO31 - 0x81);
  }

  lemma NotOfBit()
    ensures Unsigned(Not(0x80)) == TWO32 - 0x81 && Unsigned(TWO31 - 1) == TWO31 - 1
  {
  }

  lemma SignedSmall(x: int)
    requires 0 <= x < TWO31
    ensures Signed(x) == x
  {
  }

  lemma HalfOfWord()
    ensures Pow2(31) == TWO31 && Up(1, 31) == TWO31 && Up(0, 31) == 0
  {
    Pow2Values();
    Pow2Step(31);
  }

  lemma ChooseOfBit()
    ensures Choose(Lane(0, 0x80), Lane(0, 0), Lane(0, TWO31 - 1)).low == TWO31 - 0x81
  {
    hide Bits, Not;
    OneSided(0x80);
    MaskedBits();
    OneSided(TWO31 - 0x81);
  }

  lemma LowOfFirstSum(v: Vars<Lane>, k: Lane, w: Lane)
    ensures FirstSum(v, k, w).low == v.h.low + Sum1(v.e).low + Choose(v.e, v.f, v.g).low + k.low + w.low
  {
    hide Sum1, Choose, Carry;
  }

  lemma BoundMonotone(m: nat, n: nat)
    requires m <= n
    ensures StateBound(m) <= StateBound(n)
  {
    Arithmetic.MulMonotone(m, n, TWO31 + 1);
  }

  lemma FirstConstant()
    ensures |K| == 80 && K[0].low == 3609767458
  {
  }

  lemma GrownWithin(n: nat)
    requires n >= BLOCKS
    ensures AllWithin(GrownState(), StateBound(n))
  {
    BoundMonotone(BLOCKS, n);
  }

  lemma GrownWord()
    ensures BlockLane(GrownBlock(), 0).low == TWO31 - 1
  {
  }

  /** The sum that is rounded. */
  lemma GrownRounds(k: Lane)
    requires k.low == 3609767458
    ensures !PassRoom(GrownState(), k, BlockLane(GrownBlock(), 0))
  {
    hide Sum1, Choose, Sum0, Majority, AddFirst, AddSecond, FirstSum, SecondSum, GrownBlock, BlockLane;
    SumOfBit();
    ChooseOfBit();
    GrownWord();
    LowOfFirstSum(GrownState(), k, BlockLane(GrownBlock(), 0));
    assert !Room(GrownState().d, FirstSum(GrownState(), k, BlockLane(GrownBlock(), 0)));
  }

  lemma FirstStep(v: Vars<Lane>, a: seq<int>)
    requires |a| == 32 && BlockRoom(v, a)
    ensures PassRoom(v, K[0], BlockLane(a, 0))
  {
    hide PassRoom, NextRoom, FeedRoom, BlockLane, Pass;
    assert StepRoom(v, a, 0);
    assert Schedule(a, 0) == [] && Passes(v, a, 0) == v;
  }

  /**
   The range is exact: from `BLOCKS` on a state may have grown so far that the first pass rounds a sum. Whether a message
   drives the state there is another matter.
   */
  lemma RangeEnds(n: nat)
    requires n >= BLOCKS
    ensures AllWithin(GrownState(), StateBound(n)) && !BlockRoom(GrownState(), GrownBlock())
  {
    hide AllWithin, PassRoom, BlockRoom, GrownState, GrownBlock, BlockLane, StateBound;
    GrownWithin(n);
    FirstConstant();
    GrownRounds(K[0]);
    if BlockRoom(GrownState(), GrownBlock()) {
      FirstStep(GrownState(), GrownBlock());
      assert false;
    }
  }
}
