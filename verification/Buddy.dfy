/** The binary buddy allocator of bbuddy.c, on areas of 32 or 64 parts.

  Blocks are numbered like a heap: block 1 is the whole area, blocks `2 * x` and `2 * x + 1` are the halves of
  block `x`, and the layer `align` holds the blocks `align .. 2 * align`.  A bitmap word is a row of 32 bits.
 */
module Buddy {

  const ENOBLOCK := 65535
  const EINVALIDINDX := 65533

  /** Which blocks are free, handed out, or separated into halves. */
  datatype Area = Area(free: set<nat>, live: set<nat>, split: set<nat>)

  ghost predicate IsLayer(a: nat) {
    a == 1 || (a > 0 && a % 2 == 0 && IsLayer(a / 2))
  }

  /** Block `y` is block `x` or lies inside it. */
  ghost predicate Covers(x: nat, y: nat) {
    x == y || (y > x && Covers(x, y / 2))
  }

  /** A block exists exactly when its parent is separated, and then it is free, handed out or separated itself. */
  ghost predicate Formed(a: Area, x: nat) {
    (x in a.free || x in a.live || x in a.split) <==> (x == 1 || x / 2 in a.split)
  }

  ghost predicate Sound(a: Area, pn: nat) {
    && a.free !! a.live && a.free !! a.split && a.live !! a.split
    && (forall x | x in a.free + a.live :: 0 < x < 2 * pn)
    && (forall x | x in a.split :: 0 < x < pn)
    && forall x | 0 < x < 2 * pn :: Formed(a, x)
  }

  lemma {:induction false} SmallLayer(a: nat)
    requires IsLayer(a) && a <= 64
    ensures a in {1, 2, 4, 8, 16, 32, 64} && Layer(a) == a
  {
    if a > 1 {
      SmallLayer(a / 2);
    }
  }

  ghost predicate NoneFree(a: Area, lo: nat, hi: nat) {
    forall x | x in a.free :: !(lo <= x < hi)
  }

  /** Block `x` is handed out. */
  ghost function Taken(a: Area, x: nat): Area {
    Area(a.free - {x}, a.live + {x}, a.split)
  }

  /** Block `x` is separated into two free halves. */
  ghost function Halved(a: Area, x: nat): Area {
    Area(a.free - {x} + {2 * x, 2 * x + 1}, a.live, a.split + {x})
  }

  // ----- tiling

  /** Every block is separated or lies in exactly one free or handed out block. */
  lemma {:induction false} OneHolder(a: Area, pn: nat, y: nat) returns (x: nat)
    requires Sound(a, pn) && 0 < y < 2 * pn
    ensures y !in a.split ==> x in a.free + a.live && Covers(x, y)
    ensures forall z | z in a.free + a.live && Covers(z, y) :: y !in a.split && z == x
  {
    if y == 1 {
      x := 1;
    } else {
      x := OneHolder(a, pn, y / 2);
      assert Formed(a, y);
      if y / 2 in a.split {
        x := y;
      }
    }
  }

  /** Each part of the area belongs to exactly one block, and that is either free or handed out. */
  lemma Tiling(a: Area, pn: nat, u: nat) returns (x: nat)
    requires Sound(a, pn) && u < pn
    ensures x in a.free + a.live && Covers(x, pn + u)
    ensures forall z | z in a.free + a.live && Covers(z, pn + u) :: z == x
  {
    x := OneHolder(a, pn, pn + u);
  }

  /** No part of the area, which are the blocks of the last layer, lies in both blocks. */
  ghost predicate ShareNothing(x: nat, z: nat, pn: nat) {
    forall y | pn <= y < 2 * pn :: !(Covers(x, y) && Covers(z, y))
  }

  /** Two different blocks have no part in common. */
  lemma DisjointBlocks(a: Area, pn: nat, x: nat, z: nat)
    requires Sound(a, pn) && x in a.free + a.live && z in a.free + a.live && x != z
    ensures ShareNothing(x, z, pn)
  {
    forall y | pn <= y < 2 * pn ensures !(Covers(x, y) && Covers(z, y)) {
      var t := Tiling(a, pn, y - pn);
    }
  }

  lemma TakenSound(a: Area, pn: nat, x: nat)
    requires Sound(a, pn) && x in a.free
    ensures Sound(Taken(a, x), pn)
  {
    var b := Taken(a, x);
    forall y | 0 < y < 2 * pn ensures Formed(b, y) {
      assert Formed(a, y);
    }
  }

  lemma HalvesOf(x: nat, y: nat)
    requires x > 0
    ensures y / 2 == x <==> y == 2 * x || y == 2 * x + 1
  {
  }

  lemma HalvedSound(a: Area, pn: nat, x: nat)
    requires Sound(a, pn) && x in a.free && x < pn
    ensures Sound(Halved(a, x), pn)
  {
    var b := Halved(a, x);
    HalvesOf(x, 2 * x);
    HalvesOf(x, 2 * x + 1);
    assert Formed(a, 2 * x) && Formed(a, 2 * x + 1);
    forall y | 0 < y < 2 * pn ensures Formed(b, y) {
      HalvesOf(x, y);
      assert Formed(a, y);
    }
  }

  // ----- what an allocation does

  /** The number of blocks in the layer of block `x`. */
  ghost function Layer(x: nat): (a: nat)
    ensures x > 0 ==> a <= x < 2 * a
  {
    if x < 2 then x else 2 * Layer(x / 2)
  }

  lemma {:induction false} LayerTwice(x: nat)
    ensures Layer(Layer(x)) == Layer(x)
  {
    if x >= 2 {
      LayerTwice(x / 2);
    }
  }

  lemma {:induction false} LayerUnique(x: nat, align: nat)
    requires Layer(align) == align && align <= x < 2 * align
    ensures Layer(x) == align
  {
    if x >= 2 && align >= 2 {
      LayerUnique(x / 2, align / 2);
    }
  }

  /** Block `x` is the first free one in the deepest layer, no deeper than `req`, that has any: the first of the
      smallest that will do. */
  ghost predicate Best(a: Area, x: nat, req: nat) {
    x in a.free && 0 < x < 2 * req && NoneFree(a, 2 * Layer(x), 2 * req) && NoneFree(a, Layer(x), x)
  }

  /** The first part of block `x` in layer `req`. */
  ghost function Corner(x: nat, req: nat): nat
    decreases req - x
  {
    if x == 0 || x >= req then x else Corner(2 * x, req)
  }

  /** Block `x` is halved until its first part is of the requested size, and that is handed out. */
  ghost function Carved(a: Area, x: nat, req: nat): Area
    decreases req - x
  {
    if x == 0 || x >= req then Taken(a, x) else Carved(Halved(a, x), 2 * x, req)
  }

  lemma {:induction false} CoversHalf(x: nat, y: nat)
    requires x > 0 && Covers(2 * x, y)
    ensures Covers(x, y)
  {
    if y == 2 * x {
      assert Covers(x, x);
    } else {
      CoversHalf(x, y / 2);
    }
  }

  /** What is handed out is part of the block chosen, of the requested size, and nothing else changes hands. */
  lemma {:induction false} CarvedSound(a: Area, pn: nat, x: nat, req: nat)
    requires Sound(a, pn) && x in a.free && x < 2 * req && req <= pn
    ensures var b, r := Carved(a, x, req), Corner(x, req);
      && Sound(b, pn) && r !in a.live && b.live == a.live + {r} && Covers(x, r) && req <= r < 2 * req
      && a.free - {x} <= b.free && a.split <= b.split
    decreases req - x
  {
    if x >= req {
      TakenSound(a, pn, x);
    } else {
      HalvedSound(a, pn, x);
      CarvedSound(Halved(a, x), pn, 2 * x, req);
      CoversHalf(x, Corner(x, req));
      HalvesOf(x, 2 * x);
      assert Formed(a, 2 * x);
    }
  }

  lemma HalvedFree(a: Area, x: nat)
    ensures Halved(a, x).free == a.free - {x} + {2 * x, 2 * x + 1}
  {
  }

  lemma LayerHalves(x: nat)
    requires x > 0
    ensures Layer(2 * x) == 2 * Layer(x) && Layer(2 * x + 1) == 2 * Layer(x)
  {
  }

  /** `flag` layers lie between the layer `align`, which is 0 above the top, and the layer asked for. */
  ghost predicate Pending(align: nat, flag: nat, req: nat)
    decreases flag
  {
    align == 0 || if flag == 0 then align == req else align < req && Pending(2 * align, flag - 1, req)
  }

  lemma {:induction false} PendingLayer(align: nat, flag: nat, req: nat)
    requires Pending(align, flag, req) && IsLayer(req) && align > 0
    ensures IsLayer(align) && align <= req && (align > 1 ==> Pending(align / 2, flag + 1, req))
    decreases flag
  {
    if flag > 0 {
      PendingLayer(2 * align, flag - 1, req);
    }
  }

  lemma Climb(a: Area, pn: nat, align: nat, req: nat)
    requires Sound(a, pn) && (align == 0 || IsLayer(align)) && NoneFree(a, align, 2 * align)
      && NoneFree(a, 2 * align, 2 * req)
    ensures NoneFree(a, 2 * (align / 2), 2 * req) && (align <= 1 ==> NoneFree(a, 1, 2 * req))
  {
  }

  /** What a request for a block of layer `req` brings about: the area `a` turns into `b` and `num` is returned. */
  ghost predicate Served(a: Area, b: Area, num: nat, x: nat, req: nat) {
    if NoneFree(a, 1, 2 * req) then num == ENOBLOCK && b == a
    else Best(a, x, req) && b == Carved(a, x, req) && num + req == Corner(x, req)
  }

  /** Each of the areas comes from the one before by a request, which fails exactly when no free block there is large
      enough. */
  ghost predicate Series(areas: seq<Area>, nums: seq<nat>, best: seq<nat>, reqs: seq<nat>) {
    && |nums| == |best| <= |reqs| && |areas| == |nums| + 1
    && forall i | 0 <= i < |nums| ::
      && Served(areas[i], areas[i + 1], nums[i], best[i], reqs[i])
      && (nums[i] == ENOBLOCK <==> NoneFree(areas[i], 1, 2 * reqs[i]))
  }

  /** The blocks returned so far are handed out, and no two are the same. */
  ghost predicate Handed(nums: seq<nat>, reqs: seq<nat>, live: set<nat>) {
    && |nums| <= |reqs|
    && (forall i | 0 <= i < |nums| && nums[i] != ENOBLOCK :: nums[i] < reqs[i] && reqs[i] + nums[i] in live)
    && forall i, j | 0 <= i < j < |nums| && nums[i] != ENOBLOCK && nums[j] != ENOBLOCK ::
      reqs[i] + nums[i] != reqs[j] + nums[j]
  }

  lemma HandedNothing(reqs: seq<nat>, live: set<nat>)
    ensures Handed([], reqs, live)
  {
  }

  lemma HandedOn(nums: seq<nat>, reqs: seq<nat>, live: set<nat>, live': set<nat>, num: nat)
    requires Handed(nums, reqs, live) && |nums| < |reqs| && live <= live'
    requires num != ENOBLOCK ==> var r := reqs[|nums|]; num < r && r + num !in live && r + num in live'
    ensures Handed(nums + [num], reqs, live')
  {
  }

  lemma HandedApart(nums: seq<nat>, reqs: seq<nat>, a: Area, pn: nat)
    requires Handed(nums, reqs, a.live) && Sound(a, pn)
    ensures forall i | 0 <= i < |nums| && nums[i] != ENOBLOCK :: nums[i] < reqs[i] && reqs[i] + nums[i] in a.live
    ensures forall i, j | 0 <= i < j < |nums| && nums[i] != ENOBLOCK && nums[j] != ENOBLOCK ::
      ShareNothing(reqs[i] + nums[i], reqs[j] + nums[j], pn)
  {
    hide ShareNothing, Sound;
    forall i, j | 0 <= i < j < |nums| && nums[i] != ENOBLOCK && nums[j] != ENOBLOCK
      ensures ShareNothing(reqs[i] + nums[i], reqs[j] + nums[j], pn)
    {
      DisjointBlocks(a, pn, reqs[i] + nums[i], reqs[j] + nums[j]);
    }
  }

  lemma SeriesStart(a: Area, reqs: seq<nat>)
    ensures Series([a], [], [], reqs)
  {
  }

  lemma SeriesOn(areas: seq<Area>, nums: seq<nat>, best: seq<nat>, reqs: seq<nat>, a: Area, num: nat, x: nat)
    requires Series(areas, nums, best, reqs) && |nums| < |reqs|
    requires Served(areas[|nums|], a, num, x, reqs[|nums|])
    requires num == ENOBLOCK <==> NoneFree(areas[|nums|], 1, 2 * reqs[|nums|])
    ensures Series(areas + [a], nums + [num], best + [x], reqs)
  {
  }

  lemma ServedNot(a: Area, req: nat)
    requires NoneFree(a, 1, 2 * req)
    ensures Served(a, a, ENOBLOCK, 0, req)
  {
  }

  /** The first free block of a layer, with no free block below, is the best one; in the layer asked for it is
      handed out. */
  lemma ServedHere(a: Area, x: nat, align: nat, req: nat)
    requires IsLayer(align) && align <= 64 && align <= x < 2 * align <= 2 * req && x in a.free
    requires NoneFree(a, align, x) && NoneFree(a, 2 * align, 2 * req)
    ensures Layer(x) == align && (align == req ==> Served(a, Taken(a, x), x - align, x, req))
  {
    SmallLayer(align);
    LayerUnique(x, align);
  }

  /** Otherwise it is halved, and the request served from the halves. */
  lemma ServedBelow(a: Area, pn: nat, b: Area, num: nat, x: nat, z: nat, req: nat)
    requires Sound(a, pn) && x in a.free && x < req && NoneFree(a, Layer(x), x) && NoneFree(a, 2 * Layer(x), 2 * req)
    requires Served(Halved(a, x), b, num, z, req)
    ensures Served(a, b, num, x, req)
  {
    HalvedFree(a, x);
    assert !NoneFree(Halved(a, x), 1, 2 * req);
    BestHalf(a, pn, x, Layer(x), req, z);
  }

  lemma HalvesBest(a: Area, x: nat, align: nat, req: nat)
    requires x in a.free && align <= x < 2 * align && align < req && NoneFree(a, 2 * align, 2 * req)
    ensures var b := Halved(a, x); NoneFree(b, 4 * align, 2 * req) && !NoneFree(b, 2 * align, 4 * align)
  {
    assert 2 * x in Halved(a, x).free;
  }

  /** Halving the best block makes its first half the best one. */
  lemma BestHalf(a: Area, pn: nat, x: nat, align: nat, req: nat, z: nat)
    requires Sound(a, pn) && x in a.free && align == Layer(x) && x < req && NoneFree(a, 2 * align, 2 * req)
    requires Best(Halved(a, x), z, req) && x > 0
    ensures z == 2 * x
  {
    LayerTwice(x);
    LayerTwice(z);
    LayerHalves(x);
    var b := Halved(a, x);
    hide Layer, Sound, Halved;
    assert 2 * x in b.free && b.free == a.free - {x} + {2 * x, 2 * x + 1} by { HalvedFree(a, x); }
    if z in a.free {
      assert z < 2 * align && x < Layer(z);
      LayerUnique(Layer(z), align);
    }
  }

  // ----- what a release does

  /** The other half of the parent of block `x`. */
  function Mate(x: nat): nat
    requires x > 0
  {
    if x % 2 == 0 then x + 1 else x - 1
  }

  /** Block `x` is given back. */
  ghost function Freed(a: Area, x: nat): Area {
    Area(a.free + {x}, a.live - {x}, a.split)
  }

  /** Block `x` and its mate become one block again. */
  ghost function Joined(a: Area, x: nat): Area
    requires x > 0
  {
    Area(a.free - {x, Mate(x)} + {x / 2}, a.live, a.split - {x / 2})
  }

  ghost predicate Joinable(a: Area, x: nat) {
    x > 1 && Mate(x) in a.free
  }

  /** Free mates are joined as long as there are any. */
  ghost function Merged(a: Area, x: nat): Area
    decreases x
  {
    if Joinable(a, x) then Merged(Joined(a, x), x / 2) else a
  }

  /** Whether joining from `x` upwards sets the mark of `z`: whole words are overwritten on the way. */
  ghost predicate Touched(a: Area, x: nat, z: nat)
    decreases x
  {
    Joinable(a, x) && (z / 32 == x / 32 || z == x / 2 || Touched(Joined(a, x), x / 2, z))
  }

  /** No two mates are free at once. */
  ghost predicate Compact(a: Area) {
    forall x | x in a.free && x > 1 :: Mate(x) !in a.free
  }

  /** Only block `x` and its mate may be. */
  ghost predicate CompactBut(a: Area, x: nat) {
    forall y | y in a.free && y > 1 && y != x && Mate(y) != x :: Mate(y) !in a.free
  }

  lemma CompactTaken(a: Area, x: nat)
    requires CompactBut(a, x)
    ensures Compact(Taken(a, x))
  {
    forall y | y in a.free && y != x && y > 1 ensures Mate(y) == x || Mate(y) !in a.free {
      MateOf(y);
    }
  }

  lemma CompactHalves(a: Area, x: nat)
    requires CompactBut(a, x)
    ensures CompactBut(Halved(a, x), 2 * x)
  {
    forall y | y in a.free && y != x && y > 1 && y != 2 * x && Mate(y) != 2 * x
      ensures Mate(y) != 2 * x + 1 && (Mate(y) == x || Mate(y) !in a.free)
    {
      MateOf(y);
    }
  }

  lemma FreedSound(a: Area, pn: nat, x: nat)
    requires Sound(a, pn) && x in a.live
    ensures Sound(Freed(a, x), pn)
  {
    forall y | 0 < y < 2 * pn ensures Formed(Freed(a, x), y) {
      assert Formed(a, y);
    }
  }

  lemma MateOf(x: nat)
    requires x > 1
    ensures var y := Mate(x);
      y > 1 && y / 2 == x / 2 && Mate(y) == x && y != x && {x, y} == {2 * (x / 2), 2 * (x / 2) + 1}
    ensures forall z: nat :: z / 2 == x / 2 ==> z == x || z == Mate(x)
  {
  }

  lemma JoinedSound(a: Area, pn: nat, x: nat)
    requires Sound(a, pn) && x in a.free && Joinable(a, x)
    ensures Sound(Joined(a, x), pn) && x / 2 in a.split && x / 2 !in a.free + a.live
  {
    MateOf(x);
    var b := Joined(a, x);
    assert Formed(a, x) && Formed(a, Mate(x));
    forall y | 0 < y < 2 * pn ensures Formed(b, y) {
      assert Formed(a, y);
    }
  }

  lemma {:induction false} MergedSound(a: Area, pn: nat, x: nat)
    requires Sound(a, pn) && x in a.free
    ensures Sound(Merged(a, x), pn) && Merged(a, x).live == a.live && Merged(a, x).split <= a.split
    ensures forall z | z in a.split && z !in Merged(a, x).split :: Touched(a, x, z)
    decreases x
  {
    if Joinable(a, x) {
      JoinedSound(a, pn, x);
      MergedSound(Joined(a, x), pn, x / 2);
    }
  }

  /** If `x` is the only block whose mate may be free too, joining upwards makes the area compact. */
  lemma {:induction false} MergedCompact(a: Area, pn: nat, x: nat)
    requires Sound(a, pn) && x in a.free
    requires CompactBut(a, x)
    ensures Compact(Merged(a, x))
    decreases x
  {
    if x > 1 {
      MateOf(x);
    }
    if Joinable(a, x) {
      JoinedSound(a, pn, x);
      MergedCompact(Joined(a, x), pn, x / 2);
    }
  }

  /** An allocation keeps the area compact: each halving uses up one of the halves. */
  lemma {:induction false} CarvedCompact(a: Area, pn: nat, x: nat, req: nat)
    requires Sound(a, pn) && x in a.free && x < 2 * req && req <= pn && CompactBut(a, x)
    ensures Compact(Carved(a, x, req))
    decreases req - x
  {
    InRange(a, pn, x);
    if x >= req {
      CompactTaken(a, x);
    } else {
      hide CompactBut, Sound;
      HalvedSound(a, pn, x);
      CompactHalves(a, x);
      CarvedCompact(Halved(a, x), pn, 2 * x, req);
    }
  }

  /** Giving back what was just handed out leads to where joining from the chosen block leads. */
  lemma {:induction false} Undone(a: Area, pn: nat, x: nat, req: nat)
    requires Sound(a, pn) && x in a.free && x < 2 * req && req <= pn
    ensures Merged(Freed(Carved(a, x, req), Corner(x, req)), Corner(x, req)) == Merged(a, x)
    decreases req - x
  {
    if x >= req {
      assert Freed(Taken(a, x), x) == a;
    } else {
      HalvedSound(a, pn, x);
      Undone(Halved(a, x), pn, 2 * x, req);
      assert Formed(a, 2 * x) && Formed(a, 2 * x + 1);
      assert Joined(Halved(a, x), 2 * x) == a;
      MergedStep(Halved(a, x), 2 * x);
    }
  }

  /** A release undoes the allocation before it, to the last block, if no free mates were left apart before. */
  lemma RoundTrip(a: Area, pn: nat, x: nat, req: nat)
    requires Sound(a, pn) && Compact(a) && Best(a, x, req) && req <= pn
    ensures Merged(Freed(Carved(a, x, req), Corner(x, req)), Corner(x, req)) == a
  {
    Undone(a, pn, x, req);
    MergedStep(a, x);
  }

  lemma CompactSteps(a: Area, pn: nat, x: nat, req: nat)
    requires Sound(a, pn) && Compact(a)
    ensures x in a.free && x < 2 * req && req <= pn ==> Compact(Carved(a, x, req))
    ensures x in a.live ==> Compact(Merged(Freed(a, x), x))
  {
    if x in a.free && x < 2 * req && req <= pn {
      CarvedCompact(a, pn, x, req);
    }
    if x in a.live {
      FreedSound(a, pn, x);
      MergedCompact(Freed(a, x), pn, x);
    }
  }

  lemma {:induction false} Deepest(s: set<nat>) returns (m: nat)
    requires s != {}
    ensures m in s && forall x | x in s :: x <= m
    decreases |s|
  {
    m :| m in s;
    var rest := s - {m};
    assert forall x | x in s :: x == m || x in rest;
    if rest != {} {
      var k := Deepest(rest);
      m := if k > m then k else m;
    }
  }

  lemma DeepestHalves(a: Area, pn: nat, m: nat)
    requires Sound(a, pn) && a.live == {} && m in a.split && forall x | x in a.split :: x <= m
    ensures 2 * m in a.free && Mate(2 * m) in a.free && m > 0
  {
    assert Formed(a, 2 * m) && Formed(a, 2 * m + 1);
  }

  /** Once everything is given back a compact area is whole again. */
  lemma WholeAgain(a: Area, pn: nat)
    requires Sound(a, pn) && Compact(a) && a.live == {} && pn > 0
    ensures a == Area({1}, {}, {})
  {
    if a.split != {} {
      var m := Deepest(a.split);
      DeepestHalves(a, pn, m);
      assert false;
    }
    assert Formed(a, 1);
    forall x | x in a.free ensures x == 1 {
      assert Formed(a, x);
    }
    assert a.free == {1};
  }

  lemma MergedStep(a: Area, x: nat)
    requires x > 0
    ensures Joinable(a, x) ==> Merged(a, x) == Merged(Joined(a, x), x / 2)
    ensures !Joinable(a, x) ==> Merged(a, x) == a && forall z: nat :: !Touched(a, x, z)
    ensures Joinable(a, x) ==>
      forall z: nat :: Touched(a, x, z) <==> z / 32 == x / 32 || z == x / 2 || Touched(Joined(a, x), x / 2, z)
  {
  }

  lemma RootAlone(a: Area, pn: nat)
    requires Sound(a, pn) && 1 in a.free && pn > 1
    ensures 2 !in a.free
  {
    assert Formed(a, 2);
  }

  // ----- which marks a release leaves

  /** The block that joining from block `x` upwards ends with: the first one whose mate is not free. */
  ghost function Top(free: set<nat>, x: nat): (e: nat)
    ensures e <= x && (x > 0 ==> e > 0)
    decreases x
  {
    if x > 1 && Mate(x) in free then Top(free, x / 2) else x
  }

  /** Whether all marks are still right when block `x` has been given back, read off the bitmaps before: nothing is
      joined, or the whole area is, or only halves of blocks that have their marks in another word than the joined
      ones; there no other block may be separated. */
  ghost predicate Kept(free: set<nat>, split: set<nat>, x: nat) {
    var e := Top(free, x);
    e == x || e == 1 || e >= 32 || (e >= 16 && forall z | z in split && 32 <= z < 64 :: z == x / 2)
  }

  lemma {:induction false} TopSame(f: set<nat>, g: set<nat>, x: nat)
    requires x > 1 ==> forall m: nat | 1 < m <= x + 1 && m != x :: m in f <==> m in g
    ensures Top(f, x) == Top(g, x)
    decreases x
  {
    if x > 1 {
      TopSame(f, g, x / 2);
    }
  }

  lemma TopStep(a: Area, x: nat)
    requires Joinable(a, x)
    ensures Top(a.free, x) == Top(Joined(a, x).free, x / 2) <= x / 2
  {
    TopSame(a.free, Joined(a, x).free, x / 2);
  }

  lemma {:induction false} TopFree(a: Area, pn: nat, x: nat)
    requires Sound(a, pn) && x in a.free
    ensures Top(a.free, x) in Merged(a, x).free
    decreases x
  {
    if Joinable(a, x) {
      JoinedSound(a, pn, x);
      TopStep(a, x);
      TopFree(Joined(a, x), pn, x / 2);
    }
  }

  lemma HalfWord(e: nat, x: nat)
    requires e == x / 2
    ensures 2 * e / 32 == x / 32
  {
  }

  /** The marks in the word of the last two blocks joined are overwritten ... */
  lemma {:induction false} TouchedWord(a: Area, x: nat, z: nat)
    requires x > 0 && Top(a.free, x) < x && z / 32 == 2 * Top(a.free, x) / 32
    ensures Touched(a, x, z)
    decreases x
  {
    var e := Top(a.free, x);
    assert Joinable(a, x);
    TopStep(a, x);
    hide Top, Joined, Joinable;
    if e == x / 2 {
      HalfWord(e, x);
    } else {
      TouchedWord(Joined(a, x), x / 2, z);
    }
  }

  /** ... and no mark of a block that stays separated in an earlier word. */
  lemma {:induction false} TouchedFrom(a: Area, pn: nat, x: nat, z: nat)
    requires Sound(a, pn) && x in a.free && Touched(a, x, z) && z in Merged(a, x).split
    ensures z / 32 >= 2 * Top(a.free, x) / 32
    decreases x
  {
    JoinedSound(a, pn, x);
    TopStep(a, x);
    MergedSound(Joined(a, x), pn, x / 2);
    if z / 32 != x / 32 {
      TouchedFrom(Joined(a, x), pn, x / 2, z);
    }
  }

  lemma {:induction false} JoinedParents(a: Area, pn: nat, x: nat, z: nat)
    requires Sound(a, pn) && x in a.free && z in a.split && z !in Merged(a, x).split
    ensures z <= x / 2 && (z == x / 2 || z <= x / 4)
    decreases x
  {
    if Joinable(a, x) {
      JoinedSound(a, pn, x);
      if z != x / 2 {
        JoinedParents(Joined(a, x), pn, x / 2, z);
      }
    }
  }

  /** When the whole area is free nothing is separated. */
  lemma {:induction false} RootFree(a: Area, pn: nat, z: nat)
    requires Sound(a, pn) && 1 in a.free
    ensures z !in a.split
    decreases z
  {
    if z > 1 {
      RootFree(a, pn, z / 2);
    }
    assert 0 < z < 2 * pn ==> Formed(a, z);
  }

  /** The closed form says exactly that no block left separated has its mark overwritten. */
  lemma KeptExact(a: Area, pn: nat, x: nat)
    requires Sound(a, pn) && (pn == 32 || pn == 64) && x in a.free
    ensures (forall z | z in Merged(a, x).split :: !Touched(a, x, z)) <==> Kept(a.free, a.split, x)
  {
    var e := Top(a.free, x);
    assert x > 0 by { InRange(a, pn, x); }
    hide Top, Touched, Merged, Sound;
    if e == x {
      NoJoin(a, x);
    } else if e == 1 {
      AllJoined(a, pn, x);
    } else if e < 16 {
      FirstWord(a, pn, x);
    } else {
      LaterWords(a, pn, x);
      if e < 32 {
        SecondWord(a, pn, x);
      }
    }
  }

  lemma InRange(a: Area, pn: nat, x: nat)
    requires Sound(a, pn) && (x in a.free || x in a.live)
    ensures 0 < x < 2 * pn
  {
    assert x in a.free + a.live;
  }

  lemma AllJoined(a: Area, pn: nat, x: nat)
    requires Sound(a, pn) && x in a.free && Top(a.free, x) == 1
    ensures forall z | z in Merged(a, x).split :: !Touched(a, x, z)
  {
    MergedSound(a, pn, x);
    TopFree(a, pn, x);
    forall z: nat ensures z !in Merged(a, x).split {
      RootFree(Merged(a, x), pn, z);
    }
  }

  /** A join that stops within the first word overwrites the mark of the block above. */
  lemma FirstWord(a: Area, pn: nat, x: nat)
    requires Sound(a, pn) && x in a.free && 1 < Top(a.free, x) < 16 && Top(a.free, x) < x
    ensures var z := Top(a.free, x) / 2; z in Merged(a, x).split && Touched(a, x, z)
  {
    hide Touched, Top, Merged;
    var e, b := Top(a.free, x), Merged(a, x);
    MergedSound(a, pn, x);
    TopFree(a, pn, x);
    InRange(b, pn, e);
    assert Formed(b, e);
    TouchedWord(a, x, e / 2);
  }

  lemma LaterWords(a: Area, pn: nat, x: nat)
    requires Sound(a, pn) && pn <= 64 && x in a.free && Top(a.free, x) >= 16
    ensures forall z | z in Merged(a, x).split && Touched(a, x, z) :: Top(a.free, x) < 32 <= z < 64
  {
    hide Touched, Top, Merged;
    MergedSound(a, pn, x);
    forall z | z in Merged(a, x).split && Touched(a, x, z) ensures Top(a.free, x) < 32 <= z < 64 {
      TouchedFrom(a, pn, x, z);
    }
  }

  lemma NoJoin(a: Area, x: nat)
    requires x > 0 && Top(a.free, x) == x
    ensures forall z: nat :: !Touched(a, x, z)
  {
    if Joinable(a, x) {
      TopStep(a, x);
    }
    assert forall z: nat :: Touched(a, x, z) ==> Joinable(a, x);
  }

  lemma SecondWord(a: Area, pn: nat, x: nat)
    requires Sound(a, pn) && pn <= 64 && x in a.free && 16 <= Top(a.free, x) < 32 && Top(a.free, x) < x
    ensures (forall z | z in Merged(a, x).split && 32 <= z < 64 :: !Touched(a, x, z))
      <==> (forall z | z in a.split && 32 <= z < 64 :: z == x / 2)
  {
    hide Touched, Top, Merged;
    var b := Merged(a, x);
    MergedSound(a, pn, x);
    forall z | z in b.split && 32 <= z < 64 ensures Touched(a, x, z) {
      TouchedWord(a, x, z);
    }
    forall z | z in a.split && 32 <= z < 64 && z !in b.split ensures z == x / 2 {
      JoinedParents(a, pn, x, z);
    }
    ParentGone(a, pn, x);
  }

  lemma ParentGone(a: Area, pn: nat, x: nat)
    requires Sound(a, pn) && x in a.free && Top(a.free, x) < x
    ensures x / 2 !in Merged(a, x).split
  {
    JoinedSound(a, pn, x);
    MergedSound(Joined(a, x), pn, x / 2);
  }

  // ----- finding the block to release

  function Shl(i: nat): (n: nat)
    ensures n > 0
  {
    if i == 0 then 1 else 2 * Shl(i - 1)
  }

  /** Block `x` is reached from block `y` by going to the first half again and again. */
  ghost predicate Chain(y: nat, x: nat)
    decreases x - y
  {
    y == x || (0 < y < x && Chain(2 * y, x))
  }

  lemma {:induction false} ChainHalf(y: nat, x: nat)
    ensures Chain(y, x) && y < x ==> x % 2 == 0 && Chain(y, x / 2)
    decreases x - y
  {
    assert Chain(2 * y, x) ==> 2 * y <= x;
    if 0 < y && 2 * y < x {
      ChainHalf(2 * y, x);
    }
  }

  /** Every block above a block that exists is separated. */
  lemma {:induction false} ChainSplit(a: Area, pn: nat, y: nat, x: nat)
    requires Sound(a, pn) && Chain(y, x) && 0 < y < x && (x in a.free || x in a.live || x in a.split)
    ensures y in a.split
    decreases x - y
  {
    if 2 * y == x {
      assert Formed(a, x);
    } else {
      ChainSplit(a, pn, 2 * y, x);
      assert Formed(a, 2 * y);
    }
  }

  lemma {:induction false} ShlMonotone(i: nat, j: nat)
    ensures i < j ==> 2 * Shl(i) <= Shl(j)
    ensures i <= j ==> Shl(i) <= Shl(j)
    decreases j
  {
    if i < j {
      ShlMonotone(i, j - 1);
    }
  }

  lemma {:induction false} ShlLayer(i: nat)
    ensures IsLayer(Shl(i))
  {
    if i > 0 {
      ShlLayer(i - 1);
    }
  }

  // ----- the bitmaps

  /** `nbmp` marks the free blocks; a cleared bit of `pbmp` marks a block that is not free as separated. */
  class Bbuddy {
    const pn: nat
    const nbmp: array2<bool>
    const pbmp: array2<bool>
    ghost var live: set<nat>
    ghost var split: set<nat>

    ghost predicate Fits()
    {
      && (pn == 32 || pn == 64) && nbmp != pbmp
      && nbmp.Length0 == pn / 16 && nbmp.Length1 == 32 && pbmp.Length0 == pn / 16 && pbmp.Length1 == 32
    }

    ghost predicate IsFree(x: nat)
      requires Fits() && x < 2 * pn
      reads nbmp
    {
      nbmp[x / 32, x % 32]
    }

    ghost predicate Whole(x: nat)
      requires Fits() && x < 2 * pn
      reads pbmp
    {
      pbmp[x / 32, x % 32]
    }

    ghost function Free(): set<nat>
      requires Fits()
      reads nbmp
    {
      set x: nat | 0 < x < 2 * pn && IsFree(x)
    }

    ghost function State(): Area
      requires Fits()
      reads this, nbmp
    {
      Area(Free(), live, split)
    }

    ghost predicate Valid()
      reads this, nbmp
    {
      Fits() && Sound(State(), pn)
    }

    /** The marks of `pbmp` tell which blocks are separated. */
    ghost predicate Marked()
      requires Fits()
      reads this, pbmp
    {
      forall x: nat | 0 < x < 2 * pn :: Whole(x) <==> x !in split
    }

    /** `bbuddy_init`. */
    constructor (maxPart: nat)
      requires maxPart == 32 || maxPart == 64
      ensures Valid() && Marked() && pn == maxPart && fresh(nbmp) && fresh(pbmp)
      ensures State() == Area({1}, {}, {})
    {
      var yy := maxPart / 32 * 2;
      var n, p := new bool[yy, 32]((_, _) => false), new bool[yy, 32]((_, _) => true);
      n[0, 0] := true;
      n[0, 1] := true;
      nbmp, pbmp, pn, live, split := n, p, maxPart, {}, {};
      new;
      FirstState();
    }

    lemma FirstState()
      requires Fits() && live == {} && split == {}
      requires forall i, j | 0 <= i < nbmp.Length0 && 0 <= j < 32 :: nbmp[i, j] <==> i == 0 && j <= 1
      ensures State() == Area({1}, {}, {}) && Sound(State(), pn)
    {
      forall x: nat | 0 < x < 2 * pn ensures IsFree(x) <==> x == 1 {
        Bits(x);
      }
      assert Free() == {1};
      forall x | 0 < x < 2 * pn ensures Formed(State(), x) {
      }
    }

    static lemma Bits(x: nat)
      ensures x == x / 32 * 32 + x % 32 && 0 <= x % 32 < 32 && (x < 32 ==> x / 32 == 0 && x % 32 == x)
      ensures forall y: nat :: y / 32 == x / 32 && y % 32 == x % 32 ==> y == x
    {
      forall y: nat | y / 32 == x / 32 && y % 32 == x % 32 ensures y == x {
        assert y == y / 32 * 32 + y % 32;
      }
    }

    /** The bit of block `x` in `nbmp`, which is bit `o` of word `w`. */
    method SetFree(w: nat, o: nat, free: bool, ghost x: nat)
      requires Fits() && 0 < x < 2 * pn && x == 32 * w + o && o < 32
      modifies nbmp
      ensures forall y: nat | 0 < y < 2 * pn :: IsFree(y) <==> if y == x then free else old(IsFree(y))
    {
      Bits(x);
      nbmp[w, o] := free;
    }

    /** Its bit in `pbmp`. */
    method SetWhole(w: nat, o: nat, whole: bool, ghost x: nat)
      requires Fits() && 0 < x < 2 * pn && x == 32 * w + o && o < 32
      modifies pbmp
      ensures forall y: nat | 0 < y < 2 * pn :: Whole(y) <==> if y == x then whole else old(Whole(y))
    {
      Bits(x);
      pbmp[w, o] := whole;
    }

    method Mark(w: nat, o: nat, free: bool, whole: bool, ghost x: nat)
      requires Fits() && 0 < x < 2 * pn && x == 32 * w + o && o < 32
      modifies nbmp, pbmp
      ensures forall y: nat | 0 < y < 2 * pn :: IsFree(y) <==> if y == x then free else old(IsFree(y))
      ensures forall y: nat | 0 < y < 2 * pn :: Whole(y) <==> if y == x then whole else old(Whole(y))
    {
      hide IsFree, Whole;
      SetFree(w, o, free, x);
      SetWhole(w, o, whole, x);
    }

    /** Block `x` is used and not separated. */
    method Use(w: nat, o: nat, ghost x: nat)
      requires Valid() && x in Free() && x == 32 * w + o && o < 32
      modifies this`live, nbmp, pbmp
      ensures Valid() && State() == Taken(old(State()), x) && (old(Marked()) ==> Marked())
    {
      hide Sound;
      TakenSound(State(), pn, x);
      Apart(x);
      Mark(w, o, false, true, x);
      live := live + {x};
      hide IsFree, Whole;
      assert Free() == old(Free()) - {x};
    }

    lemma Apart(x: nat)
      requires Valid() && x in Free()
      ensures x !in split && x !in live
      ensures x < pn ==> 2 * x !in split && 2 * x + 1 !in split && 2 * x !in live && 2 * x + 1 !in live
    {
      assert x < pn ==> Formed(State(), 2 * x) && Formed(State(), 2 * x + 1);
    }

    /** Block `x` is used and separated, and both its halves are free. */
    method Separate(w: nat, o: nat, w2: nat, o2: nat, ghost x: nat)
      requires Valid() && x in Free() && x < pn && x == 32 * w + o && o < 32
      requires 2 * x == 32 * w2 + o2 && o2 + 1 < 32
      modifies this`split, nbmp, pbmp
      ensures Valid() && State() == Halved(old(State()), x) && (old(Marked()) ==> Marked())
    {
      hide Sound, IsFree, Whole;
      HalvedSound(State(), pn, x);
      Apart(x);
      Mark(w, o, false, false, x);
      Mark(w2, o2, true, true, 2 * x);
      Mark(w2, o2 + 1, true, true, 2 * x + 1);
      split := split + {x};
      assert Free() == old(Free()) - {x} + {2 * x, 2 * x + 1};
    }

    /** The first set bit of a stretch of one word. */
    method Scan(w: nat, lo: nat, hi: nat) returns (found: bool, o: nat)
      requires Fits() && w < pn / 16 && lo <= hi <= 32
      ensures lo <= o <= hi && (found <==> o < hi) && forall j | lo <= j < o :: !nbmp[w, j]
      ensures found ==> nbmp[w, o]
    {
      o, found := lo, false;
      while o < hi
        invariant lo <= o <= hi && forall j | lo <= j < o :: !nbmp[w, j]
      {
        if nbmp[w, o] {
          found := true;
          return;
        }
        o := o + 1;
      }
    }

    lemma ClearStretch(w: nat, lo: nat, hi: nat, a: nat)
      requires Fits() && w < pn / 16 && lo <= hi <= 32
      requires NoneFree(State(), a, 32 * w + lo) && forall j | lo <= j < hi :: !nbmp[w, j]
      ensures NoneFree(State(), a, 32 * w + hi)
    {
      forall x | x in Free() ensures !(32 * w + lo <= x < 32 * w + hi) {
        Bits(x);
        assert 32 * w <= x < 32 * w + 32 ==> x / 32 == w;
        assert IsFree(x);
      }
    }

    lemma SetBit(w: nat, o: nat)
      requires Fits() && w < pn / 16 && o < 32 && nbmp[w, o] && 32 * w + o > 0
      ensures 32 * w + o in Free()
    {
      Bits(32 * w + o);
      assert IsFree(32 * w + o);
    }

    /** The first free block of a layer: in the first word for the small layers, word by word for the others. */
    method Search(align: nat) returns (found: bool, w: nat, o: nat)
      requires Valid() && align <= pn && (align == 0 || IsLayer(align))
      ensures found <==> !NoneFree(State(), align, 2 * align)
      ensures found ==>
        var x := 32 * w + o;
        o < 32 && align <= x < 2 * align && x in Free() && NoneFree(State(), align, x) && (w == 0 <==> align < 32)
    {
      if align > 0 { SmallLayer(align); }
      hide Sound, IsFree, Free;
      var p := align / 32;
      w := p;
      if p == 0 {
        found, o := Scan(0, align, 2 * align);
        ClearStretch(0, align, o, align);
      } else {
        found, o := false, 0;
        while w < 2 * p && !found
          invariant p <= w <= 2 * p && o < 32 && NoneFree(State(), align, 32 * w + o)
          invariant found ==> w < 2 * p && nbmp[w, o]
          invariant !found ==> o == 0
          decreases 2 * p - w, !found
        {
          found, o := Scan(w, 0, 32);
          ClearStretch(w, 0, o, align);
          if !found {
            w, o := w + 1, 0;
          }
        }
      }
      if found {
        SetBit(w, o);
      }
    }

    /** The index of block `n` of a layer of `p` blocks: `bbuddy_indexp` and `bbuddy_indexbn`. */
    static function IndexP(p: nat, n: nat): nat {
      if p / 32 > 1 then p / 32 + n / 32 else p / 32
    }

    static function IndexBn(n: nat): nat {
      if n / 32 != 0 then n % 32 else n
    }

    static lemma LongIndex(o: nat)
      requires o < 32
      ensures 32 * IndexP(64, 2 * o) + IndexBn(2 * o) == 2 * (32 + o) && IndexBn(2 * o) + 1 < 32
    {
    }

    static lemma ShortIndex(i: nat, align: nat)
      requires align <= i < 2 * align && align in {1, 2, 4, 8, 16}
      ensures 32 * (2 * align / 32) + IndexBn(2 * i) == 2 * i && IndexBn(2 * i) + 1 < 32
    {
    }

    static method Number(align: nat, w: nat, o: nat) returns (num: nat)
      requires IsLayer(align) && align <= 64 && o < 32 && align <= 32 * w + o < 2 * align
      ensures num + align == 32 * w + o
    {
      SmallLayer(align);
      num := if align < 32 then o - align else if align / 32 > 1 then (w - 2) * 32 + o else o;
    }

    /** Where the bits of the halves are depends on the layer. */
    method Halve(align: nat, w: nat, o: nat, ghost x: nat)
      requires Valid() && x in Free() && x == 32 * w + o && o < 32 && align <= x < 2 * align <= pn && IsLayer(align)
      modifies this`split, nbmp, pbmp
      ensures Valid() && State() == Halved(old(State()), x) && (old(Marked()) ==> Marked())
    {
      hide Sound, Free, Halved, Whole, IsFree;
      SmallLayer(align);
      if align < 32 {
        ShortIndex(o, align);
        Separate(w, o, 2 * align / 32, IndexBn(2 * o), x);
      } else {
        LongIndex(o);
        Separate(w, o, IndexP(2 * align, 2 * o), IndexBn(2 * o), x);
      }
    }

    /** Climb to the first layer with a free block, then halve down to the layer asked for; `flag` counts the layers
        still to come down. */
    method Alloc(align: nat, flag: nat, ghost req: nat, ghost down: bool) returns (num: nat, ghost x: nat)
      requires Valid() && IsLayer(req) && req <= pn && Pending(align, flag, req)
        && NoneFree(State(), 2 * align, 2 * req)
      requires down ==> !NoneFree(State(), align, 2 * align)
      modifies this`live, this`split, nbmp, pbmp
      ensures Valid() && Served(old(State()), State(), num, x, req) && (old(Marked()) ==> Marked())
      decreases !down, if down then flag else align
    {
      hide Sound, Halved, Free, IsFree, Whole, IsLayer, NoneFree, Served;
      ghost var a := State();
      if align > 0 { PendingLayer(align, flag, req); }
      var found, w, o := Search(align);
      if !found {
        Climb(a, pn, align, req);
        if align == 0 {
          ServedNot(a, req);
          return ENOBLOCK, 0;
        }
        num, x := Alloc(align / 2, flag + 1, req, false);
        return;
      }
      x := 32 * w + o;
      ServedHere(a, x, align, req);
      if flag == 0 {
        Use(w, o, x);
        num := Number(align, w, o);
        return;
      }
      HalvesBest(a, x, align, req);
      Halve(align, w, o, x);
      ghost var z;
      num, z := Alloc(2 * align, flag - 1, req, true);
      ServedBelow(a, pn, State(), num, x, z, req);
    }

    /** `bbuddy_block_alloc`. */
    method BlockAlloc(align: nat) returns (num: nat, ghost x: nat)
      requires Valid() && IsLayer(align) && align <= pn
      modifies this`live, this`split, nbmp, pbmp
      ensures Valid() && (old(Marked()) ==> Marked()) && (Compact(old(State())) ==> Compact(State()))
      ensures num == ENOBLOCK <==> NoneFree(old(State()), 1, 2 * align)
      ensures num == ENOBLOCK ==> State() == old(State())
      ensures num != ENOBLOCK ==>
        && num < align && align + num !in old(live) && live == old(live) + {align + num}
        && Best(old(State()), x, align) && Covers(x, align + num) && State() == Carved(old(State()), x, align)
      ensures Served(old(State()), State(), num, x, align)
    {
      hide Carved, Corner, Sound, Covers;
      ghost var a := State();
      num, x := Alloc(align, 0, align, false);
      if !NoneFree(a, 1, 2 * align) {
        CarvedSound(a, pn, x, align);
        if Compact(a) {
          CompactSteps(a, pn, x, align);
        }
      }
    }

    /** A series of requests: no two of the blocks returned share a part.  `areas` are the states on the way, each made
        from the one before by one request, and `best` the blocks chosen. */
    method Serve(reqs: seq<nat>) returns (nums: seq<nat>, ghost areas: seq<Area>, ghost best: seq<nat>)
      requires Valid() && forall r | r in reqs :: IsLayer(r) && r <= pn
      modifies this`live, this`split, nbmp, pbmp
      ensures Valid() && (old(Marked()) ==> Marked()) && old(live) <= live && |nums| == |reqs|
      ensures forall i | 0 <= i < |nums| && nums[i] != ENOBLOCK :: nums[i] < reqs[i] && reqs[i] + nums[i] in live
      ensures forall i, j | 0 <= i < j < |nums| && nums[i] != ENOBLOCK && nums[j] != ENOBLOCK ::
        ShareNothing(reqs[i] + nums[i], reqs[j] + nums[j], pn)
      ensures Series(areas, nums, best, reqs) && areas[0] == old(State()) && areas[|reqs|] == State()
    {
      hide Sound, IsLayer, ShareNothing, Best, Carved, NoneFree, Compact, Served, Series, Handed, Covers;
      nums, areas, best := [], [State()], [];
      SeriesStart(State(), reqs);
      HandedNothing(reqs, live);
      while |nums| < |reqs|
        invariant Valid() && (old(Marked()) ==> Marked()) && old(live) <= live && |nums| <= |reqs|
        invariant Handed(nums, reqs, live)
        invariant Series(areas, nums, best, reqs) && |areas| == |nums| + 1
        invariant areas[0] == old(State()) && areas[|nums|] == State()
      {
        ghost var before := live;
        var num, x := BlockAlloc(reqs[|nums|]);
        HandedOn(nums, reqs, before, live, num);
        SeriesOn(areas, nums, best, reqs, State(), num, x);
        nums, areas, best := nums + [num], areas + [State()], best + [x];
      }
      HandedApart(nums, reqs, State(), pn);
    }

    // ----- release

    /** `pbmp[w] |= ~(1 << o)`: every bit of the word but that of block `x`. */
    method SetAllBut(w: nat, o: nat, ghost x: nat)
      requires Fits() && w < pn / 16 && o < 32 && x == 32 * w + o
      modifies pbmp
      ensures forall z: nat | 0 < z < 2 * pn :: Whole(z) <==> old(Whole(z)) || (z / 32 == x / 32 && z != x)
    {
      Bits(x);
      for j := 0 to 32
        invariant forall i, k | 0 <= i < pn / 16 && 0 <= k < 32 ::
          pbmp[i, k] <==> old(pbmp[i, k]) || (i == w && k != o && k < j)
      {
        if j != o {
          pbmp[w, j] := true;
        }
      }
    }

    /** One joining step on the bitmaps: bits `o` and `m` of word `w` are the mates, bit `o2` of word `w2` is
        their parent. */
    method Join(w: nat, o: nat, m: nat, w2: nat, o2: nat, ghost x: nat)
      requires Valid() && x in Free() && Joinable(State(), x) && o < 32 && m < 32 && o2 < 32
      requires x == 32 * w + o && Mate(x) == 32 * w + m && x / 2 == 32 * w2 + o2
      modifies this`split, nbmp, pbmp
      ensures Valid() && State() == Joined(old(State()), x)
      ensures forall z: nat | 0 < z < 2 * pn :: Whole(z) <==> old(Whole(z)) || z / 32 == x / 32 || z == x / 2
    {
      hide Sound, IsFree, Whole;
      JoinedSound(State(), pn, x);
      MateOf(x);
      SameWord(w, o, m);
      SetFree(w, m, false, Mate(x));
      SetFree(w, o, false, x);
      SetAllBut(w, m, Mate(x));
      SetAllBut(w, o, x);
      SetFree(w2, o2, true, x / 2);
      SetWhole(w2, o2, true, x / 2);
      split := split - {x / 2};
      assert Free() == old(Free()) - {x, Mate(x)} + {x / 2};
    }

    static lemma SameWord(w: nat, o: nat, m: nat)
      requires o < 32 && m < 32
      ensures (32 * w + o) / 32 == w == (32 * w + m) / 32
    {
    }

    static function BitOf(align: nat, num: nat): nat {
      if align < 32 then num + align else IndexBn(num)
    }

    /** Word and bit of block `align + num`, and the bit of its mate. */
    static method Address(align: nat, num: nat) returns (w: nat, o: nat, m: nat)
      requires IsLayer(align) && num < align <= 64
      ensures align + num == 32 * w + o && o < 32 && m < 32
      ensures if align == 1 then w == 0 && m == 2 else Mate(align + num) == 32 * w + m
    {
      SmallLayer(align);
      w, o := IndexP(align, num), BitOf(align, num);
      m := if num % 2 != 0 then o - 1 else o + 1;
    }

    /** `__bbuddy_split_up`: joins free mates from block `x` upwards. */
    method SplitUp(align: nat, num: nat, ghost x: nat)
      requires Valid() && IsLayer(align) && num < align <= pn && x == align + num && x in Free()
      modifies this`split, nbmp, pbmp
      ensures Valid() && State() == Merged(old(State()), x)
      ensures forall z: nat | 0 < z < 2 * pn :: Whole(z) <==> old(Whole(z)) || Touched(old(State()), x, z)
      decreases align
    {
      hide Sound, Whole, Touched, Merged, Joined, Joinable, IsLayer, Free, IsFree;
      ghost var a := State();
      MergedStep(a, x);
      var w, o, m := Address(align, num);
      MateBit(align, w, m, x);
      if nbmp[w, m] {
        var w2, o2, m2 := Address(align / 2, num / 2);
        Join(w, o, m, w2, o2, x);
        InJoined(a, x);
        if align / 2 > 1 {
          SplitUp(align / 2, num / 2, x / 2);
        } else {
          RootStep(Joined(a, x));
        }
      }
    }

    static lemma RootStep(a: Area)
      ensures Merged(a, 1) == a && forall z: nat :: !Touched(a, 1, z)
    {
    }

    lemma MateBit(align: nat, w: nat, m: nat, x: nat)
      requires Valid() && IsLayer(align) && align <= x < 2 * align <= 2 * pn && x in Free() && m < 32
      requires if align == 1 then w == 0 && m == 2 else Mate(x) == 32 * w + m
      ensures w < pn / 16 && (nbmp[w, m] <==> Joinable(State(), x)) && (nbmp[w, m] ==> align > 1)
      ensures align > 1 ==> IsLayer(align / 2) && align % 2 == 0
    {
      var y := 32 * w + m;
      if align == 1 {
        RootAlone(State(), pn);
      } else {
        MateOf(x);
        MateRange(align, x);
      }
      Bits(y);
      SameWord(w, m, m);
      hide Sound, Mate;
      assert IsFree(y) <==> nbmp[w, m];
      assert y in Free() <==> IsFree(y);
    }

    static lemma MateRange(align: nat, x: nat)
      requires align % 2 == 0 && align <= x < 2 * align
      ensures align <= Mate(x) < 2 * align
    {
    }

    lemma InJoined(a: Area, x: nat)
      requires x > 0
      ensures x / 2 in Joined(a, x).free
    {
    }

    /** The number of layers. */
    method Layers() returns (a: nat)
      requires Fits()
      ensures 0 < a <= 7 && Shl(a - 1) == pn
    {
      assert Shl(3) == 8;
      assert Shl(5) == 32;
      var ls := pn;
      a := 0;
      while ls != 0
        invariant pn == 32 ==> (a, ls) in {(0, 32), (1, 16), (2, 8), (3, 4), (4, 2), (5, 1), (6, 0)}
        invariant pn == 64 ==> (a, ls) in {(0, 64), (1, 32), (2, 16), (3, 8), (4, 4), (5, 2), (6, 1), (7, 0)}
      {
        ls := ls / 2;
        a := a + 1;
      }
    }

    /** The largest block that starts at part `num0`. */
    method Largest(num0: nat, a: nat, ghost x: nat) returns (num: nat, i: nat)
      requires a > 0 && num0 < Shl(a - 1) && x > 0 && Chain(x, Shl(a - 1) + num0)
      ensures i < a && num < Shl(i) && Chain(Shl(i) + num, x)
    {
      num, i := num0, a - 1;
      while i > 0
        invariant i < a && num < Shl(i)
        invariant Chain(Shl(i) + num, x) || Chain(x, Shl(i) + num)
      {
        ChainHalf(x, Shl(i) + num);
        if num % 2 != 0 {
          break;
        }
        assert (Shl(i) + num) / 2 == Shl(i - 1) + num / 2;
        num := num / 2;
        i := i - 1;
      }
      ChainHalf(x, Shl(i) + num);
    }

    /** Block `x` is the one that starts at part `num`, or block `num` of layer `i` leads to it. */
    ghost predicate Leads(num: nat, i: nat, x: nat) {
      x > 0 && if i == 0 then num < pn && Chain(x, pn + num) else num < Shl(i) < 2 * pn && Chain(Shl(i) + num, x)
    }

    /** The marks on the way from the largest block that starts where block `x` does down to `x` are right. */
    ghost predicate Signed(x: nat)
      requires Fits() && x < 2 * pn
      reads this, pbmp
    {
      (x in live ==> Whole(x)) && forall y | 0 < y < x && Chain(y, x) :: !Whole(y)
    }

    ghost predicate Releasable(x: nat)
      requires Fits()
      reads this, nbmp, pbmp
    {
      x < 2 * pn && (x in live || x in Free()) && Signed(x)
    }

    /** With all marks right every block handed out can be released. */
    lemma MarkedSigned(x: nat)
      requires Valid() && Marked() && (x in live || x in Free())
      ensures Releasable(x)
    {
      InRange(State(), pn, x);
      forall y | 0 < y < x && Chain(y, x) ensures !Whole(y) {
        ChainSplit(State(), pn, y, x);
      }
    }

    /** `__bbuddy_block_release`: down through the separated blocks that start at the part, to the one handed out.  A
        block that is free already is left alone. */
    method Release(num0: nat, i0: nat, ghost x: nat) returns (code: nat, layer: nat)
      requires Valid() && (num0 <= pn ==> Releasable(x) && Leads(num0, i0, x))
      modifies this`live, this`split, nbmp, pbmp
      ensures Valid()
      ensures num0 > pn ==> code == EINVALIDINDX
      ensures num0 <= pn ==> code == 0
      ensures num0 > pn || x !in old(live) ==> State() == old(State()) && (old(Marked()) ==> Marked())
      ensures num0 <= pn && x in old(live) ==> layer == Layer(x) && State() == Merged(old(Freed(State(), x)), x)
      ensures num0 <= pn && x in old(live) && old(Marked()) ==> (Marked() <==> Kept(old(Free()), old(split), x))
      ensures Compact(old(State())) ==> Compact(State())
      decreases i0 == 0, 8 - i0
    {
      hide Sound, Touched, Merged, Whole, IsFree, Free, IsLayer, Compact, Leads, Layer, Chain, Releasable, Kept;
      if num0 > pn {
        return EINVALIDINDX, 0;
      }
      var a, i, num, w, o := Candidate(num0, i0, x);
      layer := Shl(i);
      code := 0;
      if !nbmp[w, o] && pbmp[w, o] {
        if Compact(State()) {
          CompactSteps(State(), pn, x, 0);
        }
        ReleaseBlock(layer, num, w, o, x);
      } else if !nbmp[w, o] && !pbmp[w, o] {
        i := i + 1;
        if i >= a {
          assert false;
        }
        code, layer := Release(num * 2, i, x);
      }
    }

    /** The block to look at: block `num` of layer `i`, bit `o` of word `w`.  It is the one to release or separated. */
    method Candidate(num0: nat, i0: nat, ghost x: nat) returns (a: nat, i: nat, num: nat, w: nat, o: nat)
      requires Valid() && num0 <= pn && Releasable(x) && Leads(num0, i0, x)
      ensures i < a <= 7 && (i0 > 0 ==> i == i0) && num < Shl(i) <= pn && Shl(i) + num == 32 * w + o && o < 32
        && w < pn / 16
      ensures IsLayer(Shl(i)) && (nbmp[w, o] ==> x !in live)
      ensures !nbmp[w, o] && pbmp[w, o] ==> x in live && Shl(i) + num == x && Shl(i) == Layer(x)
      ensures !nbmp[w, o] && !pbmp[w, o] ==> i + 1 < a && Leads(2 * num, i + 1, x) && 2 * num <= pn
    {
      a, i, num := Settle(num0, i0, x);
      hide Sound, Whole, IsFree, Free, IsLayer, Chain;
      var m;
      w, o, m := Address(Shl(i), num);
      DescentBits(Shl(i) + num, w, o, x);
      if Shl(i) + num == x {
        LayerIs(Shl(i), x);
      } else {
        ChainOn(num, i, x);
      }
    }

    method Settle(num0: nat, i0: nat, ghost x: nat) returns (a: nat, i: nat, num: nat)
      requires Fits() && Leads(num0, i0, x)
      ensures i < a <= 7 && (i0 > 0 ==> i == i0) && num < Shl(i) <= pn && Chain(Shl(i) + num, x) && IsLayer(Shl(i))
      ensures Shl(i) < pn ==> i + 1 < a && Shl(i + 1) == 2 * Shl(i) < 2 * pn
    {
      a := Layers();
      num, i := num0, i0;
      if i == 0 {
        num, i := Largest(num0, a, x);
      }
      ShlLayer(i);
      ShlFits(i, a);
    }

    lemma ChainOn(num: nat, i: nat, x: nat)
      requires Fits() && num < Shl(i) < pn && Chain(Shl(i) + num, x) && Shl(i) + num != x
      ensures Leads(2 * num, i + 1, x)
    {
    }

    lemma ShlFits(i: nat, a: nat)
      requires Fits() && 0 < a && Shl(a - 1) == pn && (i < a || Shl(i) < 2 * pn)
      ensures i < a && Shl(i) <= pn && (Shl(i) < pn ==> i + 1 < a && Shl(i + 1) == 2 * Shl(i) < 2 * pn)
    {
      ShlMonotone(i, a - 1);
      ShlMonotone(a, i);
    }

    method ReleaseBlock(align: nat, num: nat, w: nat, o: nat, ghost x: nat)
      requires Valid() && x in live && x == 32 * w + o && o < 32 && x == align + num && IsLayer(align)
        && num < align <= pn
      modifies this`live, this`split, nbmp, pbmp
      ensures Valid() && State() == Merged(old(Freed(State(), x)), x)
      ensures old(Marked()) ==> (Marked() <==> Kept(old(Free()), old(split), x))
    {
      hide Touched, Whole, IsFree, Kept, Merged;
      ghost var a := State();
      FreedSound(a, pn, x);
      MergedSound(Freed(a, x), pn, x);
      KeptExact(Freed(a, x), pn, x);
      KeptBefore(a, x);
      GiveBack(w, o, x);
      SplitUp(align, num, x);
    }

    /** The block given back is not among the mates that are looked at. */
    static lemma KeptBefore(a: Area, x: nat)
      ensures Kept(Freed(a, x).free, a.split, x) <==> Kept(a.free, a.split, x)
    {
      TopSame(Freed(a, x).free, a.free, x);
    }

    lemma InArea(x: nat)
      requires Valid() && x in live
      ensures 0 < x < 2 * pn
    {
    }

    static lemma ChainUp(y: nat, x: nat)
      requires Chain(y, x)
      ensures y <= x
    {
    }

    static lemma LayerIs(align: nat, x: nat)
      requires IsLayer(align) && align <= 64 && align <= x < 2 * align
      ensures Layer(x) == align
    {
      SmallLayer(align);
      LayerUnique(x, align);
    }

    /** On the way down a block is marked as separated until it is the one to release. */
    lemma DescentBits(y: nat, w: nat, o: nat, x: nat)
      requires Valid() && Releasable(x) && y > 0 && Chain(y, x) && y == 32 * w + o && o < 32
      ensures y < 2 * pn && w < pn / 16
      ensures y != x ==> y < pn && !nbmp[w, o] && !pbmp[w, o]
      ensures y == x ==> (nbmp[w, o] <==> x !in live) && (x in live ==> pbmp[w, o])
    {
      ChainUp(y, x);
      if y < x {
        ChainSplit(State(), pn, y, x);
      }
      Bits(y);
      SameWord(w, o, o);
      assert IsFree(y) <==> y in Free();
      assert Whole(y) <==> pbmp[w, o];
    }

    /** The block handed out is marked free. */
    method GiveBack(w: nat, o: nat, ghost x: nat)
      requires Valid() && x in live && x == 32 * w + o && o < 32
      modifies this`live, nbmp
      ensures Valid() && State() == Freed(old(State()), x)
    {
      hide Sound, IsFree;
      FreedSound(State(), pn, x);
      InArea(x);
      SetFree(w, o, true, x);
      live := live - {x};
      assert Free() == old(Free()) + {x};
    }
  }

  // ----- an example

  lemma TwoBlocks()
    ensures Carved(Area({1}, {}, {}), 1, 4) == Area({3, 5}, {4}, {1, 2})
    ensures Carved(Area({3, 5}, {4}, {1, 2}), 3, 2) == Area({5}, {3, 4}, {1, 2})
    ensures !Kept({5}, {1, 2}, 4) && Chain(4, 32)
  {
    var a := Area({1}, {}, {});
    assert Halved(a, 1) == Area({2, 3}, {}, {1});
    assert Halved(Halved(a, 1), 2) == Area({3, 4, 5}, {}, {1, 2});
    assert Taken(Area({3, 4, 5}, {}, {1, 2}), 4) == Area({3, 5}, {4}, {1, 2});
    assert Top({5}, 2) == 2 == Top({5}, 4);
    assert Chain(16, 32) && Chain(8, 32);
  }

  /** Two allocations and one release are enough to lose a mark: that of block 1, which stays separated. */
  method MarksLost() returns (b: Bbuddy)
    ensures fresh(b) && b.Valid() && !b.Marked() && b.State() == Area({2}, {3}, {1})
  {
    hide Sound, Carved, Kept, Chain;
    TwoBlocks();
    b := new Bbuddy(32);
    var num, x := b.BlockAlloc(4);
    num, x := b.BlockAlloc(2);
    b.MarkedSigned(4);
    var code, layer := b.Release(0, 0, 4);
  }
}
