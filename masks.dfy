/** The modifier bit-mask model: every modifier owns bits of one byte, a list
    of modifiers is the OR of their masks, and a mask is read back as the
    canonical list of modifiers that prefers the generic name of a family. */
module Masks {
  import opened Options
  import opened Keycodes

  datatype Modifier =
    | Alt | LeftAlt | RightAlt
    | Ctrl | LeftCtrl | RightCtrl
    | Shift | LeftShift | RightShift
    | Meta | LeftMeta | RightMeta

  /** The fixed order in which a mask is read back. */
  const AllModifiers: seq<Modifier> := [
    Alt, LeftAlt, RightAlt, Ctrl, LeftCtrl, RightCtrl,
    Shift, LeftShift, RightShift, Meta, LeftMeta, RightMeta]

  /** The generic modifiers, each covering a left and a right modifier. */
  const CombinedModifiers: seq<Modifier> := [Alt, Ctrl, Shift, Meta]

  function Mask(m: Modifier): bv8
  {
    match m
    case Alt => 0x03
    case LeftAlt => 0x01
    case RightAlt => 0x02
    case Ctrl => 0x0C
    case LeftCtrl => 0x04
    case RightCtrl => 0x08
    case Meta => 0x30
    case LeftMeta => 0x10
    case RightMeta => 0x20
    case Shift => 0xC0
    case LeftShift => 0x40
    case RightShift => 0x80
  }

  /** The bit a held key contributes: a physical modifier key sets its side's
      bit, every other key nothing. */
  function MaskFromKey(k: Key): bv8
  {
    match k
    case KeyLeftAlt => 0x01
    case KeyRightAlt => 0x02
    case KeyLeftCtrl => 0x04
    case KeyRightCtrl => 0x08
    case KeyLeftMeta => 0x10
    case KeyRightMeta => 0x20
    case KeyLeftShift => 0x40
    case KeyRightShift => 0x80
    case _ => 0
  }

  // ---------------------------------------------------------------------
  // Families: the generic modifier and its two sides

  predicate IsCombined(m: Modifier)
  {
    m == Alt || m == Ctrl || m == Shift || m == Meta
  }

  /** The generic modifier of `m`'s family. */
  function Family(m: Modifier): Modifier
  {
    match m
    case Alt | LeftAlt | RightAlt => Alt
    case Ctrl | LeftCtrl | RightCtrl => Ctrl
    case Shift | LeftShift | RightShift => Shift
    case Meta | LeftMeta | RightMeta => Meta
  }

  /** Position of `m`'s family in `CombinedModifiers`. */
  function FamilyRank(m: Modifier): nat
  {
    var g := Family(m);
    if g == Alt then 0 else if g == Ctrl then 1 else if g == Shift then 2 else 3
  }

  /** Position of `m` in `AllModifiers`. */
  function Rank(m: Modifier): nat
  {
    match m
    case Alt => 0 case LeftAlt => 1 case RightAlt => 2
    case Ctrl => 3 case LeftCtrl => 4 case RightCtrl => 5
    case Shift => 6 case LeftShift => 7 case RightShift => 8
    case Meta => 9 case LeftMeta => 10 case RightMeta => 11
  }

  /** The left modifier of `g`'s family. */
  function LeftOf(g: Modifier): Modifier
  {
    match g
    case Alt | LeftAlt | RightAlt => LeftAlt
    case Ctrl | LeftCtrl | RightCtrl => LeftCtrl
    case Shift | LeftShift | RightShift => LeftShift
    case Meta | LeftMeta | RightMeta => LeftMeta
  }

  /** The right modifier of `g`'s family. */
  function RightOf(g: Modifier): Modifier
  {
    match g
    case Alt | LeftAlt | RightAlt => RightAlt
    case Ctrl | LeftCtrl | RightCtrl => RightCtrl
    case Shift | LeftShift | RightShift => RightShift
    case Meta | LeftMeta | RightMeta => RightMeta
  }

  /** The side modifier a physical key stands for, if any. */
  function KeyModifier(k: Key): Option<Modifier>
  {
    match k
    case KeyLeftAlt => Some(LeftAlt)
    case KeyRightAlt => Some(RightAlt)
    case KeyLeftCtrl => Some(LeftCtrl)
    case KeyRightCtrl => Some(RightCtrl)
    case KeyLeftMeta => Some(LeftMeta)
    case KeyRightMeta => Some(RightMeta)
    case KeyLeftShift => Some(LeftShift)
    case KeyRightShift => Some(RightShift)
    case _ => None
  }

  /** Number of set bits. */
  function Popcount(x: bv8): nat
  {
    (if x & 0x01 != 0 then 1 else 0) + (if x & 0x02 != 0 then 1 else 0) +
    (if x & 0x04 != 0 then 1 else 0) + (if x & 0x08 != 0 then 1 else 0) +
    (if x & 0x10 != 0 then 1 else 0) + (if x & 0x20 != 0 then 1 else 0) +
    (if x & 0x40 != 0 then 1 else 0) + (if x & 0x80 != 0 then 1 else 0)
  }

  /** Number of families that own at least one set bit of `x`. */
  function FamilyCount(x: bv8): nat
  {
    (if x & Mask(Alt) != 0 then 1 else 0) + (if x & Mask(Ctrl) != 0 then 1 else 0) +
    (if x & Mask(Shift) != 0 then 1 else 0) + (if x & Mask(Meta) != 0 then 1 else 0)
  }

  // ---------------------------------------------------------------------
  // The bit layout

  lemma CombinedModifiersAreGeneric(i: nat)
    requires i < |CombinedModifiers|
    ensures IsCombined(CombinedModifiers[i]) && FamilyRank(CombinedModifiers[i]) == i
  {
  }

  /** A generic modifier's mask is the disjoint OR of its two sides' masks,
      and the families own disjoint pairs of bits. */
  lemma GenericIsUnionOfSides(m: Modifier)
    ensures var g := Family(m);
      Mask(g) == Mask(LeftOf(g)) | Mask(RightOf(g)) &&
      Mask(LeftOf(g)) & Mask(RightOf(g)) == 0 &&
      Mask(m) & Mask(g) == Mask(m) && Mask(m) != 0
    ensures IsCombined(m) <==> m == Family(m)
    ensures !IsCombined(m) ==> m == LeftOf(m) || m == RightOf(m)
  {
  }

  /** The eight side masks are distinct single bits that fill the byte. */
  lemma SideMasksPartitionByte()
    ensures forall s :: !IsCombined(s) ==> Popcount(Mask(s)) == 1
    ensures forall s, t :: !IsCombined(s) && !IsCombined(t) && s != t ==> Mask(s) & Mask(t) == 0
    ensures Mask(LeftAlt) | Mask(RightAlt) | Mask(LeftCtrl) | Mask(RightCtrl) |
            Mask(LeftShift) | Mask(RightShift) | Mask(LeftMeta) | Mask(RightMeta) == 0xFF
  {
  }

  /** A physical modifier key contributes exactly its side modifier's mask;
      every other key contributes nothing. */
  lemma MaskFromKeyIsSideMask(k: Key)
    ensures KeyModifier(k).Some? ==> !IsCombined(KeyModifier(k).value) &&
                                     MaskFromKey(k) == Mask(KeyModifier(k).value)
    ensures KeyModifier(k).None? ==> MaskFromKey(k) == 0
  {
  }

  // ---------------------------------------------------------------------
  // ModifierList: one byte, built by OR-folding the masks

  datatype ModifierList = ModifierList(mask: bv8)

  /** The left fold `mask | m.mask()` over `ms`, starting from 0. */
  function OrMasks(ms: seq<Modifier>): bv8
  {
    if ms == [] then 0 else OrMasks(ms[..|ms| - 1]) | Mask(ms[|ms| - 1])
  }

  function NewList(ms: seq<Modifier>): ModifierList
  {
    ModifierList(OrMasks(ms))
  }

  function IsEmpty(l: ModifierList): bool
  {
    l.mask == 0
  }

  lemma {:induction false} OrMasksAppend(a: seq<Modifier>, b: seq<Modifier>)
    ensures OrMasks(a + b) == OrMasks(a) | OrMasks(b)
    decreases |b|
  {
    if b == [] {
      assert a + b == a;
    } else {
      var n := |b| - 1;
      assert (a + b)[..|a + b| - 1] == a + b[..n];
      OrMasksAppend(a, b[..n]);
    }
  }

  /** Every listed modifier's bits are in the result ... */
  lemma {:induction false} OrMasksUpper(ms: seq<Modifier>, i: nat)
    requires i < |ms|
    ensures Mask(ms[i]) & OrMasks(ms) == Mask(ms[i])
    decreases |ms|
  {
    if i < |ms| - 1 {
      OrMasksUpper(ms[..|ms| - 1], i);
    }
  }

  /** ... and no other bits are. */
  lemma {:induction false} OrMasksLeast(ms: seq<Modifier>, y: bv8)
    requires forall i :: 0 <= i < |ms| ==> Mask(ms[i]) & y == Mask(ms[i])
    ensures OrMasks(ms) & y == OrMasks(ms)
    decreases |ms|
  {
    if ms != [] {
      var init := ms[..|ms| - 1];
      assert forall i :: 0 <= i < |init| ==> init[i] == ms[i];
      OrMasksLeast(init, y);
    }
  }

  /** The bits of a list are among those of any list holding all its modifiers. */
  lemma OrMasksSubsumed(a: seq<Modifier>, b: seq<Modifier>)
    requires forall m :: m in a ==> m in b
    ensures OrMasks(a) & OrMasks(b) == OrMasks(a)
  {
    forall i | 0 <= i < |a| ensures Mask(a[i]) & OrMasks(b) == Mask(a[i]) {
      assert a[i] in b;
      var j :| 0 <= j < |b| && b[j] == a[i];
      OrMasksUpper(b, j);
    }
    OrMasksLeast(a, OrMasks(b));
  }

  /** `new` depends only on which modifiers are given, not on their order or
      on repetitions. */
  lemma NewListIgnoresOrder(a: seq<Modifier>, b: seq<Modifier>)
    requires forall m :: m in a <==> m in b
    ensures NewList(a) == NewList(b)
  {
    OrMasksSubsumed(a, b);
    OrMasksSubsumed(b, a);
  }

  // ---------------------------------------------------------------------
  // Reading a mask back: the canonical modifiers

  /** `c` is a different generic modifier containing `m` whose bits are all set. */
  predicate Covers(c: Modifier, m: Modifier, mask: bv8)
  {
    c != m && Mask(c) & Mask(m) == Mask(m) && Mask(c) & mask == Mask(c)
  }

  /** The scan over `CombinedModifiers` that suppresses `m`. */
  predicate CoveredBy(cs: seq<Modifier>, m: Modifier, mask: bv8)
  {
    |cs| > 0 && (Covers(cs[0], m, mask) || CoveredBy(cs[1..], m, mask))
  }

  /** The filter of `modifiers()`: all of `m`'s bits are set and no generic
      modifier covering `m` is itself fully set. */
  predicate Emitted(m: Modifier, mask: bv8)
  {
    !CoveredBy(CombinedModifiers, m, mask) && Mask(m) & mask == Mask(m)
  }

  function Keep(ms: seq<Modifier>, mask: bv8): seq<Modifier>
  {
    if ms == [] then []
    else (if Emitted(ms[0], mask) then [ms[0]] else []) + Keep(ms[1..], mask)
  }

  /** `modifiers()`: `AllModifiers` filtered by `Emitted`. */
  function Modifiers(l: ModifierList): seq<Modifier>
  {
    Keep(AllModifiers, l.mask)
  }

  /** `len()`: the number of canonical modifiers (at most 12, so the source's
      `u32` cannot overflow). */
  function Len(l: ModifierList): nat
  {
    |Modifiers(l)|
  }

  /** Reference reading of one family's two bits: both set gives the generic
      modifier, one set gives that side, none gives nothing. */
  function Part(g: Modifier, mask: bv8): seq<Modifier>
  {
    if mask & Mask(g) == Mask(g) then [g]
    else if mask & Mask(LeftOf(g)) != 0 then [LeftOf(g)]
    else if mask & Mask(RightOf(g)) != 0 then [RightOf(g)]
    else []
  }

  lemma CoveredByUnfold(m: Modifier, mask: bv8)
    ensures CoveredBy(CombinedModifiers, m, mask) <==>
            Covers(Alt, m, mask) || Covers(Ctrl, m, mask) || Covers(Shift, m, mask) || Covers(Meta, m, mask)
  {
    var cs := CombinedModifiers;
    assert cs[1..] == [Ctrl, Shift, Meta];
    assert cs[1..][1..] == [Shift, Meta];
    assert cs[1..][1..][1..] == [Meta];
    assert cs[1..][1..][1..][1..] == [];
    assert !CoveredBy([], m, mask);
    assert CoveredBy([Meta], m, mask) <==> Covers(Meta, m, mask);
    assert CoveredBy([Shift, Meta], m, mask) <==> Covers(Shift, m, mask) || Covers(Meta, m, mask);
    assert CoveredBy([Ctrl, Shift, Meta], m, mask) <==>
           Covers(Ctrl, m, mask) || Covers(Shift, m, mask) || Covers(Meta, m, mask);
  }

  lemma {:induction false} KeepAppend(a: seq<Modifier>, b: seq<Modifier>, mask: bv8)
    ensures Keep(a + b, mask) == Keep(a, mask) + Keep(b, mask)
    decreases |a|
  {
    if a == [] {
      assert a + b == b;
    } else {
      assert (a + b)[1..] == a[1..] + b;
      KeepAppend(a[1..], b, mask);
    }
  }

  lemma KeepThree(a: Modifier, b: Modifier, c: Modifier, mask: bv8)
    ensures Keep([a, b, c], mask) ==
            (if Emitted(a, mask) then [a] else []) +
            (if Emitted(b, mask) then [b] else []) +
            (if Emitted(c, mask) then [c] else [])
  {
    var s := [a, b, c];
    assert s[1..] == [b, c];
    assert s[1..][1..] == [c];
    assert s[1..][1..][1..] == [];
    var k0 := if Emitted(a, mask) then [a] else [];
    var k1 := if Emitted(b, mask) then [b] else [];
    var k2 := if Emitted(c, mask) then [c] else [];
    assert Keep([c], mask) == k2 + Keep([], mask);
    assert Keep([b, c], mask) == k1 + k2;
    assert Keep(s, mask) == k0 + (k1 + k2);
  }

  /* Filtering one family's three modifiers gives the reference reading:
     the filter keeps the generic modifier when both bits are set and a side
     when only its bit is set.  One lemma per family keeps each proof over
     concrete masks. */
  lemma KeepAlt(mask: bv8)
    ensures Keep([Alt, LeftAlt, RightAlt], mask) == Part(Alt, mask)
  {
    KeepThree(Alt, LeftAlt, RightAlt, mask);
    CoveredByUnfold(Alt, mask);
    CoveredByUnfold(LeftAlt, mask);
    CoveredByUnfold(RightAlt, mask);
  }

  lemma KeepCtrl(mask: bv8)
    ensures Keep([Ctrl, LeftCtrl, RightCtrl], mask) == Part(Ctrl, mask)
  {
    KeepThree(Ctrl, LeftCtrl, RightCtrl, mask);
    CoveredByUnfold(Ctrl, mask);
    CoveredByUnfold(LeftCtrl, mask);
    CoveredByUnfold(RightCtrl, mask);
  }

  lemma KeepShift(mask: bv8)
    ensures Keep([Shift, LeftShift, RightShift], mask) == Part(Shift, mask)
  {
    KeepThree(Shift, LeftShift, RightShift, mask);
    CoveredByUnfold(Shift, mask);
    CoveredByUnfold(LeftShift, mask);
    CoveredByUnfold(RightShift, mask);
  }

  lemma KeepMeta(mask: bv8)
    ensures Keep([Meta, LeftMeta, RightMeta], mask) == Part(Meta, mask)
  {
    KeepThree(Meta, LeftMeta, RightMeta, mask);
    CoveredByUnfold(Meta, mask);
    CoveredByUnfold(LeftMeta, mask);
    CoveredByUnfold(RightMeta, mask);
  }

  lemma AllModifiersGrouped()
    ensures AllModifiers == [Alt, LeftAlt, RightAlt] + ([Ctrl, LeftCtrl, RightCtrl] +
                            ([Shift, LeftShift, RightShift] + [Meta, LeftMeta, RightMeta]))
  {
  }

  /** `modifiers()` reads the mask family by family. */
  lemma ModifiersByFamily(l: ModifierList)
    ensures Modifiers(l) == Part(Alt, l.mask) + Part(Ctrl, l.mask) + Part(Shift, l.mask) + Part(Meta, l.mask)
  {
    var m := l.mask;
    var a, c, s, t := [Alt, LeftAlt, RightAlt], [Ctrl, LeftCtrl, RightCtrl],
                      [Shift, LeftShift, RightShift], [Meta, LeftMeta, RightMeta];
    AllModifiersGrouped();
    KeepAppend(a, c + (s + t), m);
    KeepAppend(c, s + t, m);
    KeepAppend(s, t, m);
    KeepAlt(m);
    KeepCtrl(m);
    KeepShift(m);
    KeepMeta(m);
  }

  /** One family's reading holds exactly that family's bits of the mask. */
  lemma PartBits(g: Modifier, mask: bv8)
    requires IsCombined(g)
    ensures OrMasks(Part(g, mask)) == mask & Mask(g)
    ensures |Part(g, mask)| == if mask & Mask(g) != 0 then 1 else 0
    ensures forall x :: x in Part(g, mask) ==> Family(x) == g
  {
    var p := Part(g, mask);
    if p != [] {
      assert p[..0] == [];
    }
    match g
    case Alt =>
    case Ctrl =>
    case Shift =>
    case Meta =>
  }

  /** Reading back loses nothing: the OR of the canonical modifiers' masks is
      the list's mask. */
  lemma ModifiersCoverMask(l: ModifierList)
    ensures NewList(Modifiers(l)) == l
  {
    var m := l.mask;
    ModifiersByFamily(l);
    var a, c, s, t := Part(Alt, m), Part(Ctrl, m), Part(Shift, m), Part(Meta, m);
    OrMasksAppend(a + c + s, t);
    OrMasksAppend(a + c, s);
    OrMasksAppend(a, c);
    PartBits(Alt, m);
    PartBits(Ctrl, m);
    PartBits(Shift, m);
    PartBits(Meta, m);
    assert m == (m & Mask(Alt)) | (m & Mask(Ctrl)) | (m & Mask(Shift)) | (m & Mask(Meta));
  }

  /** `len()` counts the families that own a set bit. */
  lemma LenCountsFamilies(l: ModifierList)
    ensures Len(l) == FamilyCount(l.mask) && Len(l) <= 4
  {
    ModifiersByFamily(l);
    PartBits(Alt, l.mask);
    PartBits(Ctrl, l.mask);
    PartBits(Shift, l.mask);
    PartBits(Meta, l.mask);
  }

  /** `is_empty` (mask 0) holds exactly when `len()` is 0. */
  lemma EmptyIffNoModifiers(l: ModifierList)
    ensures IsEmpty(l) <==> Len(l) == 0
    ensures IsEmpty(l) <==> Modifiers(l) == []
  {
    LenCountsFamilies(l);
  }

  // ---------------------------------------------------------------------
  // Canonical lists

  /** At most one modifier per family, families strictly increasing from
      rank `k` on. */
  predicate FamiliesFrom(s: seq<Modifier>, k: nat)
  {
    s == [] || (FamilyRank(s[0]) >= k && FamiliesFrom(s[1..], FamilyRank(s[0]) + 1))
  }

  /** The lists `modifiers()` can yield. */
  predicate Canonical(s: seq<Modifier>)
  {
    FamiliesFrom(s, 0)
  }

  lemma FamilyRankOrder(x: Modifier, y: Modifier)
    requires FamilyRank(x) < FamilyRank(y)
    ensures Rank(x) < Rank(y) && Family(x) != Family(y)
  {
  }

  lemma {:induction false} FamiliesFromMeaning(s: seq<Modifier>, k: nat)
    requires FamiliesFrom(s, k)
    ensures forall i :: 0 <= i < |s| ==> FamilyRank(s[i]) >= k
    ensures forall i, j :: 0 <= i < j < |s| ==> FamilyRank(s[i]) < FamilyRank(s[j])
    decreases |s|
  {
    if s != [] {
      FamiliesFromMeaning(s[1..], FamilyRank(s[0]) + 1);
      assert forall i :: 1 <= i < |s| ==> s[i] == s[1..][i - 1];
    }
  }

  /** A canonical list is in `AllModifiers` order and never holds a generic
      modifier together with one of its sides (nor both sides of a family). */
  lemma CanonicalMeaning(s: seq<Modifier>)
    requires Canonical(s)
    ensures forall i, j :: 0 <= i < j < |s| ==> Rank(s[i]) < Rank(s[j])
    ensures forall i, j :: 0 <= i < |s| && 0 <= j < |s| && i != j ==> Family(s[i]) != Family(s[j])
  {
    FamiliesFromMeaning(s, 0);
    forall i, j | 0 <= i < |s| && 0 <= j < |s| && i != j
      ensures Family(s[i]) != Family(s[j])
    {
      if i < j { FamilyRankOrder(s[i], s[j]); } else { FamilyRankOrder(s[j], s[i]); }
    }
    forall i, j | 0 <= i < j < |s| ensures Rank(s[i]) < Rank(s[j]) {
      FamilyRankOrder(s[i], s[j]);
    }
  }

  lemma FamiliesFromPart(g: Modifier, mask: bv8, rest: seq<Modifier>, k: nat)
    requires IsCombined(g) && k <= FamilyRank(g)
    requires FamiliesFrom(rest, FamilyRank(g) + 1)
    ensures FamiliesFrom(Part(g, mask) + rest, k)
  {
    var p := Part(g, mask);
    PartBits(g, mask);
    if p == [] {
      assert p + rest == rest;
      FamiliesFromWeaken(rest, FamilyRank(g) + 1, k);
    } else {
      assert p == [p[0]] && p[0] in p;
      assert (p + rest)[0] == p[0] && (p + rest)[1..] == rest;
    }
  }

  lemma {:induction false} FamiliesFromWeaken(s: seq<Modifier>, k: nat, k': nat)
    requires FamiliesFrom(s, k) && k' <= k
    ensures FamiliesFrom(s, k')
  {
  }

  /** `modifiers()` always yields a canonical list. */
  lemma ModifiersCanonical(l: ModifierList)
    ensures Canonical(Modifiers(l))
  {
    var m := l.mask;
    ModifiersByFamily(l);
    var a, c, s, t := Part(Alt, m), Part(Ctrl, m), Part(Shift, m), Part(Meta, m);
    assert FamiliesFrom([], 4);
    FamiliesFromPart(Meta, m, [], 3);
    assert t + [] == t;
    FamiliesFromPart(Shift, m, t, 2);
    FamiliesFromPart(Ctrl, m, s + t, 1);
    FamiliesFromPart(Alt, m, c + (s + t), 0);
    assert a + c + s + t == a + (c + (s + t));
  }

  /** The members of `ms` in family `g`, in order. */
  function Select(ms: seq<Modifier>, g: Modifier): seq<Modifier>
  {
    if ms == [] then []
    else (if Family(ms[0]) == g then [ms[0]] else []) + Select(ms[1..], g)
  }

  lemma FamilyMaskOverlap(x: Modifier, g: Modifier)
    requires IsCombined(g)
    ensures Mask(x) & Mask(g) == if Family(x) == g then Mask(x) else 0
  {
  }

  lemma OrMasksCons(x: Modifier, rest: seq<Modifier>)
    ensures OrMasks([x] + rest) == Mask(x) | OrMasks(rest)
  {
    OrMasksAppend([x], rest);
    assert [x][..0] == [];
  }

  lemma OrMasksPair(a: Modifier, b: Modifier)
    ensures OrMasks([a]) == Mask(a)
    ensures OrMasks([a, b]) == Mask(a) | Mask(b)
  {
    assert [a][..0] == [] && [a, b][..1] == [a];
  }

  /** The bits of family `g` in a list come from its members of that family. */
  lemma {:induction false} OrMasksOfFamily(ms: seq<Modifier>, g: Modifier)
    requires IsCombined(g)
    ensures OrMasks(ms) & Mask(g) == OrMasks(Select(ms, g))
    decreases |ms|
  {
    if ms != [] {
      var x, rest := ms[0], ms[1..];
      assert ms == [x] + rest;
      OrMasksOfFamily(rest, g);
      OrMasksCons(x, rest);
      FamilyMaskOverlap(x, g);
      if Family(x) == g {
        OrMasksCons(x, Select(rest, g));
      } else {
        assert Select(ms, g) == Select(rest, g);
      }
    }
  }

  lemma SelectCons(x: Modifier, rest: seq<Modifier>, g: Modifier)
    ensures Select([x] + rest, g) == (if Family(x) == g then [x] else []) + Select(rest, g)
  {
    assert ([x] + rest)[1..] == rest;
  }

  lemma {:induction false} SelectBelow(ms: seq<Modifier>, k: nat, g: Modifier)
    requires FamiliesFrom(ms, k) && FamilyRank(g) < k
    ensures Select(ms, g) == []
    decreases |ms|
  {
    if ms != [] {
      FamilyRankOrder(g, ms[0]);
      SelectBelow(ms[1..], FamilyRank(ms[0]) + 1, g);
    }
  }

  /* One step of `CanonicalByFamily` per family of the head: the tail's
     families all come after the head's. */
  lemma ConsAlt(x: Modifier, rest: seq<Modifier>)
    requires Family(x) == Alt && FamiliesFrom(rest, 1)
    requires rest == Select(rest, Alt) + Select(rest, Ctrl) + Select(rest, Shift) + Select(rest, Meta)
    ensures [x] + rest == Select([x] + rest, Alt) + Select([x] + rest, Ctrl) +
                          Select([x] + rest, Shift) + Select([x] + rest, Meta)
  {
    SelectBelow(rest, 1, Alt);
    SelectCons(x, rest, Alt);
    SelectCons(x, rest, Ctrl);
    SelectCons(x, rest, Shift);
    SelectCons(x, rest, Meta);
  }

  lemma ConsCtrl(x: Modifier, rest: seq<Modifier>)
    requires Family(x) == Ctrl && FamiliesFrom(rest, 2)
    requires rest == Select(rest, Alt) + Select(rest, Ctrl) + Select(rest, Shift) + Select(rest, Meta)
    ensures [x] + rest == Select([x] + rest, Alt) + Select([x] + rest, Ctrl) +
                          Select([x] + rest, Shift) + Select([x] + rest, Meta)
  {
    SelectBelow(rest, 2, Alt);
    SelectBelow(rest, 2, Ctrl);
    SelectCons(x, rest, Alt);
    SelectCons(x, rest, Ctrl);
    SelectCons(x, rest, Shift);
    SelectCons(x, rest, Meta);
  }

  lemma ConsShift(x: Modifier, rest: seq<Modifier>)
    requires Family(x) == Shift && FamiliesFrom(rest, 3)
    requires rest == Select(rest, Alt) + Select(rest, Ctrl) + Select(rest, Shift) + Select(rest, Meta)
    ensures [x] + rest == Select([x] + rest, Alt) + Select([x] + rest, Ctrl) +
                          Select([x] + rest, Shift) + Select([x] + rest, Meta)
  {
    SelectBelow(rest, 3, Alt);
    SelectBelow(rest, 3, Ctrl);
    SelectBelow(rest, 3, Shift);
    SelectCons(x, rest, Alt);
    SelectCons(x, rest, Ctrl);
    SelectCons(x, rest, Shift);
    SelectCons(x, rest, Meta);
  }

  lemma ConsMeta(x: Modifier, rest: seq<Modifier>)
    requires Family(x) == Meta && FamiliesFrom(rest, 4)
    requires rest == Select(rest, Alt) + Select(rest, Ctrl) + Select(rest, Shift) + Select(rest, Meta)
    ensures [x] + rest == Select([x] + rest, Alt) + Select([x] + rest, Ctrl) +
                          Select([x] + rest, Shift) + Select([x] + rest, Meta)
  {
    SelectBelow(rest, 4, Alt);
    SelectBelow(rest, 4, Ctrl);
    SelectBelow(rest, 4, Shift);
    SelectBelow(rest, 4, Meta);
    SelectCons(x, rest, Alt);
    SelectCons(x, rest, Ctrl);
    SelectCons(x, rest, Shift);
    SelectCons(x, rest, Meta);
  }

  /** A canonical list holds at most one modifier of each family. */
  lemma {:induction false} SelectAtMostOne(ms: seq<Modifier>, k: nat, g: Modifier)
    requires FamiliesFrom(ms, k) && IsCombined(g)
    ensures |Select(ms, g)| <= 1
    decreases |ms|
  {
    if ms != [] {
      var x, rest := ms[0], ms[1..];
      if Family(x) == g {
        SelectBelow(rest, FamilyRank(x) + 1, g);
      } else {
        SelectAtMostOne(rest, FamilyRank(x) + 1, g);
      }
    }
  }

  /** A canonical list is the concatenation of its families. */
  lemma {:induction false} CanonicalByFamily(ms: seq<Modifier>, k: nat)
    requires FamiliesFrom(ms, k)
    ensures ms == Select(ms, Alt) + Select(ms, Ctrl) + Select(ms, Shift) + Select(ms, Meta)
    decreases |ms|
  {
    if ms != [] {
      var x, rest := ms[0], ms[1..];
      CanonicalByFamily(rest, FamilyRank(x) + 1);
      assert ms == [x] + rest;
      match Family(x)
      case Alt => ConsAlt(x, rest);
      case Ctrl => ConsCtrl(x, rest);
      case Shift => ConsShift(x, rest);
      case Meta => ConsMeta(x, rest);
    }
  }

  lemma {:induction false} SelectFamily(ms: seq<Modifier>, g: Modifier)
    ensures forall y :: y in Select(ms, g) ==> Family(y) == g
    decreases |ms|
  {
    if ms != [] {
      SelectFamily(ms[1..], g);
    }
  }

  lemma PartOfSingle(g: Modifier, x: Option<Modifier>)
    requires IsCombined(g)
    requires x.Some? ==> Family(x.value) == g
    ensures x.None? ==> Part(g, 0) == []
    ensures x.Some? ==> Part(g, Mask(x.value)) == [x.value]
  {
    match g
    case Alt =>
    case Ctrl =>
    case Shift =>
    case Meta =>
  }

  lemma PartLocal(g: Modifier, x: bv8, y: bv8)
    requires IsCombined(g) && x & Mask(g) == y & Mask(g)
    ensures Part(g, x) == Part(g, y)
  {
    match g
    case Alt =>
    case Ctrl =>
    case Shift =>
    case Meta =>
  }

  /** Reading back one family of a list with at most one member in it gives
      that member. */
  lemma PartOfSelect(g: Modifier, ms: seq<Modifier>)
    requires IsCombined(g) && |Select(ms, g)| <= 1
    ensures Part(g, OrMasks(ms)) == Select(ms, g)
  {
    var sel := Select(ms, g);
    OrMasksOfFamily(ms, g);
    PartLocal(g, OrMasks(ms), OrMasks(sel));
    SelectFamily(ms, g);
    if sel == [] {
      PartOfSingle(g, None);
    } else {
      assert sel == [sel[0]] && sel[0] in sel;
      assert sel[..0] == [];
      PartOfSingle(g, Some(sel[0]));
    }
  }

  /** A canonical list comes back unchanged from `new` followed by
      `modifiers()`. */
  lemma CanonicalRoundTrip(ms: seq<Modifier>)
    requires Canonical(ms)
    ensures Modifiers(NewList(ms)) == ms
  {
    CanonicalByFamily(ms, 0);
    SelectAtMostOne(ms, 0, Alt);
    SelectAtMostOne(ms, 0, Ctrl);
    SelectAtMostOne(ms, 0, Shift);
    SelectAtMostOne(ms, 0, Meta);
    ModifiersByFamily(NewList(ms));
    PartOfSelect(Alt, ms);
    PartOfSelect(Ctrl, ms);
    PartOfSelect(Shift, ms);
    PartOfSelect(Meta, ms);
  }

  /** The library's own round-trip cases for `modifiers()`. */
  lemma ModifierListExamples(ms: seq<Modifier>)
    requires ms == [Ctrl] || ms == [LeftAlt, LeftCtrl] || ms == [Shift, Meta]
    ensures Modifiers(NewList(ms)) == ms
  {
    assert ms[1..] == [] || ms[1..] == [LeftCtrl] || ms[1..] == [Meta];
    assert Canonical(ms);
    CanonicalRoundTrip(ms);
  }

  // ---------------------------------------------------------------------
  // Names

  function ModifierName(m: Modifier): string
  {
    match m
    case Alt => "Alt"
    case LeftAlt => "LeftAlt"
    case RightAlt => "RightAlt"
    case Ctrl => "Ctrl"
    case LeftCtrl => "LeftCtrl"
    case RightCtrl => "RightCtrl"
    case Shift => "Shift"
    case LeftShift => "LeftShift"
    case RightShift => "RightShift"
    case Meta => "Meta"
    case LeftMeta => "LeftMeta"
    case RightMeta => "RightMeta"
  }

  /** Parses a modifier name: exactly the inverse of `ModifierName`. */
  function ParseModifier(s: string): (r: Option<Modifier>)
    ensures r.Some? ==> ModifierName(r.value) == s
    ensures r.None? ==> forall m :: ModifierName(m) != s
  {
    if s == "Alt" then Some(Alt)
    else if s == "LeftAlt" then Some(LeftAlt)
    else if s == "RightAlt" then Some(RightAlt)
    else if s == "Ctrl" then Some(Ctrl)
    else if s == "LeftCtrl" then Some(LeftCtrl)
    else if s == "RightCtrl" then Some(RightCtrl)
    else if s == "Shift" then Some(Shift)
    else if s == "LeftShift" then Some(LeftShift)
    else if s == "RightShift" then Some(RightShift)
    else if s == "Meta" then Some(Meta)
    else if s == "LeftMeta" then Some(LeftMeta)
    else if s == "RightMeta" then Some(RightMeta)
    else None
  }

  lemma ParseModifierName(m: Modifier)
    ensures ParseModifier(ModifierName(m)) == Some(m)
    ensures '-' !in ModifierName(m) && '<' !in ModifierName(m) && '>' !in ModifierName(m)
  {
  }
}
