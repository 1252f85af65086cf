/*
 * Shortcuts: the text grammar `<Mod><Mod>-Key` (or a bare `Key`), its
 * printer and parser, the identifier form, and the triggering predicate
 * over a set of held keys.
 */
module Shortcuts {
  import opened Options
  import opened Keycodes
  import opened Masks
  import opened Strings

  datatype Shortcut = Shortcut(modifiers: ModifierList, key: Key)

  function NewShortcut(ms: seq<Modifier>, key: Key): Shortcut
  {
    Shortcut(NewList(ms), key)
  }

  // ---------------------------------------------------------------------
  // Printing a modifier list

  /** What `split('>')` leaves of a printed modifier: `<` and its name. */
  function Piece(m: Modifier): string
  {
    "<" + ModifierName(m)
  }

  /** `<Name>` for each modifier of `ms`, in order. */
  function Render(ms: seq<Modifier>): string
  {
    if ms == [] then "" else Piece(ms[0]) + ">" + Render(ms[1..])
  }

  lemma {:induction false} RenderHasNoDash(ms: seq<Modifier>)
    ensures '-' !in Render(ms)
    decreases |ms|
  {
    if ms != [] {
      ParseModifierName(ms[0]);
      RenderHasNoDash(ms[1..]);
    }
  }

  /** Display of a `ModifierList`: its canonical modifiers, each as `<Name>`.
      The text is empty exactly when the list is. */
  function ListToString(l: ModifierList): (r: string)
    ensures '-' !in r
    ensures r == [] <==> IsEmpty(l)
  {
    RenderHasNoDash(Modifiers(l));
    EmptyIffNoModifiers(l);
    Render(Modifiers(l))
  }

  // ---------------------------------------------------------------------
  // Parsing a modifier list

  /** One piece between `>`s: it must start with `<`, and the rest must be
      a modifier name. */
  function ParsePiece(p: string): (r: Option<Modifier>)
    ensures r.Some? ==> p == Piece(r.value)
    ensures r.None? ==> forall m :: p != Piece(m)
  {
    if |p| >= 1 && p[0] == '<' then
      assert p == "<" + p[1..];
      ParseModifier(p[1..])
    else None
  }

  /** `collect::<Result<Vec<_>, _>>()`: every piece must parse. */
  function ParsePieces(ps: seq<string>): (r: Option<seq<Modifier>>)
    ensures r.Some? <==> forall i :: 0 <= i < |ps| ==> ParsePiece(ps[i]).Some?
    ensures r.Some? ==> |r.value| == |ps| && forall i :: 0 <= i < |ps| ==> ps[i] == Piece(r.value[i])
  {
    if ps == [] then Some([])
    else
      assert forall i :: 1 <= i < |ps| ==> ps[i] == ps[1..][i - 1];
      match ParsePiece(ps[0])
      case None => None
      case Some(m) =>
        match ParsePieces(ps[1..])
        case None => None
        case Some(rest) =>
          assert forall i :: 1 <= i < |ps| ==> ([m] + rest)[i] == rest[i - 1];
          Some([m] + rest)
  }

  /** `FromStr` for `ModifierList`: split on `>`, drop empty pieces, parse
      each `<Name>` piece and OR the modifiers together. */
  function ParseList(s: string): (r: Option<ModifierList>)
  {
    var ms := ParsePieces(NonEmpty(Split(s, '>')));
    if ms.None? then None else Some(NewList(ms.value))
  }

  /** A modifier list parses exactly when every non-empty piece between `>`s
      is `<` followed by a modifier name.  A missing `>` after the last name
      or a doubled `>` is tolerated. */
  lemma ParseListAccepts(s: string)
    ensures ParseList(s).Some? <==>
            forall i :: 0 <= i < |Split(s, '>')| && Split(s, '>')[i] != [] ==> ParsePiece(Split(s, '>')[i]).Some?
  {
    var sp := Split(s, '>');
    var ps := NonEmpty(sp);
    if !ParsePieces(ps).Some? {
      var i :| 0 <= i < |ps| && ParsePiece(ps[i]).None?;
      assert ps[i] in sp;
      var j :| 0 <= j < |sp| && sp[j] == ps[i];
    }
  }

  function Pieces(ms: seq<Modifier>): (r: seq<string>)
    ensures |r| == |ms| && forall i :: 0 <= i < |ms| ==> r[i] == Piece(ms[i])
  {
    if ms == [] then [] else [Piece(ms[0])] + Pieces(ms[1..])
  }

  lemma {:induction false} SplitRender(ms: seq<Modifier>)
    ensures Split(Render(ms), '>') == Pieces(ms) + [""]
    decreases |ms|
  {
    if ms == [] {
      assert IndexOf("", '>') == None;
    } else {
      ParseModifierName(ms[0]);
      SplitRender(ms[1..]);
      SplitAfter(Piece(ms[0]), '>', Render(ms[1..]));
      assert Render(ms) == Piece(ms[0]) + ['>'] + Render(ms[1..]);
    }
  }

  lemma {:induction false} NonEmptyPieces(ms: seq<Modifier>)
    ensures NonEmpty(Pieces(ms)) == Pieces(ms)
    decreases |ms|
  {
    if ms != [] {
      NonEmptyPieces(ms[1..]);
      assert Pieces(ms)[1..] == Pieces(ms[1..]);
    }
  }

  lemma {:induction false} ParsePiecesOf(ms: seq<Modifier>)
    ensures ParsePieces(Pieces(ms)) == Some(ms)
    decreases |ms|
  {
    var r := ParsePieces(Pieces(ms));
    assert r.Some? by {
      forall i | 0 <= i < |ms| ensures ParsePiece(Pieces(ms)[i]).Some? {
        ParseModifierName(ms[i]);
        assert Pieces(ms)[i][1..] == ModifierName(ms[i]);
      }
    }
    forall i | 0 <= i < |ms| ensures r.value[i] == ms[i] {
      ParseModifierName(ms[i]);
      ParseModifierName(r.value[i]);
      assert Piece(r.value[i])[1..] == ModifierName(r.value[i]);
      assert Piece(ms[i])[1..] == ModifierName(ms[i]);
    }
    assert r.value == ms;
  }

  /** Printing any modifiers `<M1><M2>…` and parsing the text gives the list
      `new` builds from them, whatever their order or repetitions. */
  lemma ParseRender(ms: seq<Modifier>)
    ensures ParseList(Render(ms)) == Some(NewList(ms))
  {
    SplitRender(ms);
    NonEmptyAppend(Pieces(ms), [""]);
    NonEmptyPieces(ms);
    assert NonEmpty([""]) == [];
    assert Pieces(ms) + [] == Pieces(ms);
    ParsePiecesOf(ms);
  }

  /** A displayed modifier list parses back to itself. */
  lemma ListRoundTrip(l: ModifierList)
    ensures ParseList(ListToString(l)) == Some(l)
  {
    ParseRender(Modifiers(l));
    ModifiersCoverMask(l);
  }

  // ---------------------------------------------------------------------
  // Printing and parsing a shortcut

  /** Display of a shortcut: the bare key name when there are no modifiers,
      otherwise the modifier list, `-` and the key name. */
  function ShortcutToString(sc: Shortcut): (r: string)
    ensures '-' in r <==> !IsEmpty(sc.modifiers)
  {
    KeyNameHasNoSeparators(sc.key);
    if IsEmpty(sc.modifiers) then KeyName(sc.key)
    else
      var r := ListToString(sc.modifiers) + "-" + KeyName(sc.key);
      assert r[|ListToString(sc.modifiers)|] == '-';
      r
  }

  /** `FromStr` for `Shortcut`: split at the first `-`; the text before it is
      a modifier list and the text after it a key.  Without a `-` the whole
      text is a key with no modifiers. */
  function ParseShortcut(s: string): (r: Option<Shortcut>)
    ensures '-' !in s ==> (r.Some? <==> exists k :: KeyName(k) == s)
    ensures '-' !in s && r.Some? ==> IsEmpty(r.value.modifiers) && KeyName(r.value.key) == s
    ensures '-' in s && r.Some? ==>
      exists a :: '-' !in a && s == a + "-" + KeyName(r.value.key) && ParseList(a) == Some(r.value.modifiers)
  {
    match SplitOnce(s, '-')
    case None =>
      (match ParseKey(s)
       case None => None
       case Some(k) => Some(Shortcut(ModifierList(0), k)))
    case Some((a, b)) =>
      match ParseList(a)
      case None => None
      case Some(l) =>
        match ParseKey(b)
        case None => None
        case Some(k) => Some(Shortcut(l, k))
  }

  /** Text without `-` that parses as a modifier list, then `-` and a key
      name, parses to that list and key: the converse of `ParseShortcut`'s
      second case. */
  lemma ParseShortcutAccepts(a: string, k: Key)
    requires '-' !in a && ParseList(a).Some?
    ensures ParseShortcut(a + "-" + KeyName(k)) == Some(Shortcut(ParseList(a).value, k))
  {
    SplitOnceAfter(a, '-', KeyName(k));
    ParseKeyName(k);
  }

  /** `<M1>…<Mn>-Key` parses to the shortcut `new(&[M1, …, Mn], Key)`. */
  lemma ParseRendered(ms: seq<Modifier>, k: Key)
    ensures ParseShortcut(Render(ms) + "-" + KeyName(k)) == Some(NewShortcut(ms, k))
  {
    RenderHasNoDash(ms);
    ParseRender(ms);
    ParseShortcutAccepts(Render(ms), k);
  }

  /** Parsing a displayed shortcut gives it back. */
  lemma ShortcutRoundTrip(sc: Shortcut)
    ensures ParseShortcut(ShortcutToString(sc)) == Some(sc)
  {
    ParseKeyName(sc.key);
    KeyNameHasNoSeparators(sc.key);
    if !IsEmpty(sc.modifiers) {
      SplitOnceAfter(ListToString(sc.modifiers), '-', KeyName(sc.key));
      ListRoundTrip(sc.modifiers);
    }
  }

  /* The library's own display and parse cases. */

  lemma DisplayBareKey()
    ensures ShortcutToString(NewShortcut([], KeyP)) == "KeyP"
    ensures ParseShortcut("KeyP") == Some(NewShortcut([], KeyP))
  {
    ShortcutRoundTrip(NewShortcut([], KeyP));
  }

  /** A canonical, non-empty list is displayed as itself before the `-`. */
  lemma DisplayRendered(ms: seq<Modifier>, k: Key)
    requires Canonical(ms) && ms != []
    ensures ShortcutToString(NewShortcut(ms, k)) == Render(ms) + "-" + KeyName(k)
  {
    CanonicalRoundTrip(ms);
    EmptyIffNoModifiers(NewList(ms));
  }

  lemma RenderCons(m: Modifier, ms: seq<Modifier>)
    ensures Render([m] + ms) == "<" + ModifierName(m) + ">" + Render(ms)
  {
    assert ([m] + ms)[1..] == ms;
  }

  lemma CtrlPText()
    ensures Render([Ctrl]) + "-" + KeyName(KeyP) == "<Ctrl>-KeyP"
  {
    RenderCons(Ctrl, []);
    assert [Ctrl] + [] == [Ctrl];
  }

  lemma DisplayCtrlP()
    ensures ShortcutToString(NewShortcut([Ctrl], KeyP)) == "<Ctrl>-KeyP"
    ensures ParseShortcut("<Ctrl>-KeyP") == Some(NewShortcut([Ctrl], KeyP))
  {
    assert Canonical([Ctrl]) by { assert [Ctrl][1..] == []; }
    DisplayRendered([Ctrl], KeyP);
    ParseRendered([Ctrl], KeyP);
    CtrlPText();
  }

  lemma LeftAltLeftCtrlText()
    ensures Render([LeftAlt, LeftCtrl]) + "-" + KeyName(KeyLeft) == "<LeftAlt><LeftCtrl>-KeyLeft"
  {
    RenderCons(LeftCtrl, []);
    RenderCons(LeftAlt, [LeftCtrl]);
    assert [LeftCtrl] + [] == [LeftCtrl];
    assert [LeftAlt] + [LeftCtrl] == [LeftAlt, LeftCtrl];
  }

  /** Modifiers given in any order are displayed in canonical order. */
  lemma DisplayCanonicalOrder()
    ensures ShortcutToString(NewShortcut([LeftCtrl, LeftAlt], KeyLeft)) == "<LeftAlt><LeftCtrl>-KeyLeft"
    ensures ParseShortcut("<LeftAlt><LeftCtrl>-KeyLeft") == Some(NewShortcut([LeftCtrl, LeftAlt], KeyLeft))
  {
    var ms := [LeftAlt, LeftCtrl];
    assert Canonical(ms) by { assert ms[1..] == [LeftCtrl] && ms[1..][1..] == []; }
    NewListIgnoresOrder([LeftCtrl, LeftAlt], ms);
    DisplayRendered(ms, KeyLeft);
    ParseRendered(ms, KeyLeft);
    LeftAltLeftCtrlText();
  }

  // ---------------------------------------------------------------------
  // Identifier

  /** The modifier names of `ms` run together. */
  function Names(ms: seq<Modifier>): string
  {
    if ms == [] then "" else ModifierName(ms[0]) + Names(ms[1..])
  }

  /** `identifier`: the display text with `<` and `>` deleted and `-` turned
      into `_`, so it holds none of the grammar's characters. */
  function Identifier(sc: Shortcut): (r: string)
    ensures '<' !in r && '>' !in r && '-' !in r
  {
    var t := RemoveChars(ShortcutToString(sc), {'<', '>'});
    var r := ReplaceChar(t, '-', '_');
    assert forall i :: 0 <= i < |r| ==> r[i] != '<' && r[i] != '>' && r[i] != '-';
    r
  }

  lemma {:induction false} RemoveRender(ms: seq<Modifier>)
    ensures RemoveChars(Render(ms), {'<', '>'}) == Names(ms)
    ensures '-' !in Names(ms)
    decreases |ms|
  {
    if ms != [] {
      var cs := {'<', '>'};
      var n := ModifierName(ms[0]);
      ParseModifierName(ms[0]);
      RemoveRender(ms[1..]);
      var open, close, rest := "<", ">", Render(ms[1..]);
      assert Render(ms) == open + n + close + rest;
      RemoveCharsAppend(open + n + close, rest, cs);
      RemoveCharsAppend(open + n, close, cs);
      RemoveCharsAppend(open, n, cs);
      RemoveCharsNone(n, cs);
      assert RemoveChars(open, cs) == [] && RemoveChars(close, cs) == [];
      assert RemoveChars(open + n + close, cs) == n;
    }
  }

  lemma ReplaceSeparator(a: string, x: char, y: char, b: string)
    requires x !in a && x !in b
    ensures ReplaceChar(a + [x] + b, x, y) == a + [y] + b
  {
    ReplaceCharAppend(a + [x], b, x, y);
    ReplaceCharAppend(a, [x], x, y);
    ReplaceCharNone(a, x, y);
    ReplaceCharNone(b, x, y);
    assert ReplaceChar([x], x, y) == [y] + ReplaceChar([], x, y);
  }

  /** The identifier is the modifier names run together, `_` and the key
      name; a shortcut without modifiers is just its key name. */
  lemma IdentifierShape(sc: Shortcut)
    ensures Identifier(sc) == if IsEmpty(sc.modifiers) then KeyName(sc.key)
                              else Names(Modifiers(sc.modifiers)) + "_" + KeyName(sc.key)
  {
    var k := KeyName(sc.key);
    KeyNameHasNoSeparators(sc.key);
    if IsEmpty(sc.modifiers) {
      RemoveCharsNone(k, {'<', '>'});
      ReplaceCharNone(k, '-', '_');
    } else {
      IdentifierText(Modifiers(sc.modifiers), k);
    }
  }

  lemma IdentifierText(ms: seq<Modifier>, k: string)
    requires '<' !in k && '>' !in k && '-' !in k
    ensures ReplaceChar(RemoveChars(Render(ms) + "-" + k, {'<', '>'}), '-', '_') == Names(ms) + "_" + k
  {
    var cs := {'<', '>'};
    RemoveCharsNone(k, cs);
    RemoveRender(ms);
    RemoveCharsAppend(Render(ms) + "-", k, cs);
    RemoveCharsAppend(Render(ms), "-", cs);
    assert RemoveChars("-", cs) == "-";
    ReplaceSeparator(Names(ms), '-', '_', k);
  }

  lemma MetaKeyNText()
    ensures Names([Meta]) + "_" + KeyName(KeyN) == "Meta_KeyN"
  {
    assert [Meta][1..] == [];
  }

  /** The identifier of `<Meta>-KeyN`. */
  lemma IdentifierExample()
    ensures Identifier(NewShortcut([Meta], KeyN)) == "Meta_KeyN"
  {
    var ms := [Meta];
    assert Canonical(ms) by { assert ms[1..] == []; }
    CanonicalRoundTrip(ms);
    EmptyIffNoModifiers(NewList(ms));
    IdentifierShape(NewShortcut(ms, KeyN));
    MetaKeyNText();
  }

  // ---------------------------------------------------------------------
  // Triggering

  /** What one key contributes to the pressed mask when it is held. */
  function HeldBit(keys: set<Key>, k: Key): bv8
  {
    if k in keys then MaskFromKey(k) else 0
  }

  /** The side bits of the modifier keys that are held, and nothing else. */
  function PressedMask(keys: set<Key>): bv8
  {
    HeldBit(keys, KeyLeftAlt) | HeldBit(keys, KeyRightAlt) |
    HeldBit(keys, KeyLeftCtrl) | HeldBit(keys, KeyRightCtrl) |
    HeldBit(keys, KeyLeftMeta) | HeldBit(keys, KeyRightMeta) |
    HeldBit(keys, KeyLeftShift) | HeldBit(keys, KeyRightShift)
  }

  /** The fold `mask | mask_from_key(key)` over the keys in the order the
      set is walked. */
  function FoldKeys(ks: seq<Key>): bv8
  {
    if ks == [] then 0 else FoldKeys(ks[..|ks| - 1]) | MaskFromKey(ks[|ks| - 1])
  }

  lemma PressedMaskInsert(keys: set<Key>, k: Key)
    ensures PressedMask(keys + {k}) == PressedMask(keys) | MaskFromKey(k)
  {
  }

  /** Whatever order the set is walked in (repetitions included), the fold
      gives the pressed mask. */
  lemma {:induction false} FoldKeysIsPressedMask(ks: seq<Key>, keys: set<Key>)
    requires forall k :: k in ks <==> k in keys
    ensures FoldKeys(ks) == PressedMask(keys)
    decreases |ks|
  {
    if ks == [] {
      assert keys == {};
    } else {
      var init, last := ks[..|ks| - 1], ks[|ks| - 1];
      var rest := set k | k in init;
      assert ks == init + [last];
      FoldKeysIsPressedMask(init, rest);
      assert keys == rest + {last};
      PressedMaskInsert(rest, last);
    }
  }

  /** `is_triggered` as the library writes it: the held modifier bits must
      lie within the shortcut's mask, the number of held bits must equal the
      number of the shortcut's canonical modifiers, and the key must be held. */
  predicate IsTriggeredAsWritten(sc: Shortcut, keys: set<Key>)
  {
    var desired := sc.modifiers.mask;
    var pressed := PressedMask(keys);
    var presses := desired & pressed;
    presses == pressed && Popcount(presses) == Len(sc.modifiers) && sc.key in keys
  }

  /** `is_triggered` with the count compared as intended: the held modifier
      bits, read as a modifier list, must name as many canonical modifiers
      as the shortcut does. */
  predicate IsTriggered(sc: Shortcut, keys: set<Key>)
  {
    var desired := sc.modifiers.mask;
    var pressed := PressedMask(keys);
    var presses := desired & pressed;
    presses == pressed && Len(ModifierList(presses)) == Len(sc.modifiers) && sc.key in keys
  }

  /** Every family with a bit in `d` has a bit in `p`. */
  predicate FamiliesHeld(d: bv8, p: bv8)
  {
    (d & Mask(Alt) != 0 ==> p & Mask(Alt) != 0) && (d & Mask(Ctrl) != 0 ==> p & Mask(Ctrl) != 0) &&
    (d & Mask(Shift) != 0 ==> p & Mask(Shift) != 0) && (d & Mask(Meta) != 0 ==> p & Mask(Meta) != 0)
  }

  /** Within a mask, the family count stays the same exactly when no family
      is lost. */
  lemma FamilyCountOfSubset(o: bv8, d: bv8)
    requires o & d == o
    ensures FamilyCount(o) == FamilyCount(d) <==> FamiliesHeld(d, o)
  {
  }

  /** A shortcut triggers exactly when its key is held, no modifier bit
      outside its mask is held, and every modifier family it names has a
      held key. */
  lemma TriggeredMeaning(sc: Shortcut, keys: set<Key>)
    ensures IsTriggered(sc, keys) <==>
      sc.key in keys &&
      PressedMask(keys) & sc.modifiers.mask == PressedMask(keys) &&
      FamiliesHeld(sc.modifiers.mask, PressedMask(keys))
  {
    var d, p := sc.modifiers.mask, PressedMask(keys);
    LenCountsFamilies(ModifierList(d & p));
    LenCountsFamilies(sc.modifiers);
    FamilyCountOfSubset(d & p, d);
  }

  /** Holding one more ordinary key that is not the shortcut's key changes
      neither reading of `is_triggered`. */
  lemma OtherKeyIrrelevant(sc: Shortcut, keys: set<Key>, k: Key)
    requires MaskFromKey(k) == 0 && k != sc.key
    ensures IsTriggered(sc, keys + {k}) == IsTriggered(sc, keys)
    ensures IsTriggeredAsWritten(sc, keys + {k}) == IsTriggeredAsWritten(sc, keys)
  {
    PressedMaskInsert(keys, k);
    assert PressedMask(keys + {k}) == PressedMask(keys);
    assert sc.key in keys + {k} <==> sc.key in keys;
  }

  /** No family has both its keys held. */
  predicate OneSidePerFamily(p: bv8)
  {
    p & Mask(Alt) != Mask(Alt) && p & Mask(Ctrl) != Mask(Ctrl) &&
    p & Mask(Shift) != Mask(Shift) && p & Mask(Meta) != Mask(Meta)
  }

  /** The two readings agree unless both keys of some family are held. */
  lemma ReadingsAgree(sc: Shortcut, keys: set<Key>)
    requires OneSidePerFamily(PressedMask(keys))
    ensures IsTriggeredAsWritten(sc, keys) == IsTriggered(sc, keys)
  {
    var d, p := sc.modifiers.mask, PressedMask(keys);
    LenCountsFamilies(ModifierList(d & p));
    if d & p == p {
      assert Popcount(p) == FamilyCount(p);
    }
  }

  /** Both readings in terms of bits only. */
  lemma TriggeredBits(sc: Shortcut, keys: set<Key>)
    ensures var d, p := sc.modifiers.mask, PressedMask(keys);
      (IsTriggeredAsWritten(sc, keys) <==> d & p == p && Popcount(p) == FamilyCount(d) && sc.key in keys) &&
      (IsTriggered(sc, keys) <==> d & p == p && FamilyCount(p) == FamilyCount(d) && sc.key in keys)
  {
    var d, p := sc.modifiers.mask, PressedMask(keys);
    LenCountsFamilies(ModifierList(d & p));
    LenCountsFamilies(sc.modifiers);
  }

  /** A shortcut on Ctrl and Alt fires as written when both Ctrl keys and
      its key are held but no Alt key is; the intended reading does not
      fire. */
  lemma AsWrittenFiresWithoutAlt(sc: Shortcut, keys: set<Key>)
    requires sc.modifiers.mask == Mask(Ctrl) | Mask(Alt) && sc.key in keys
    requires PressedMask(keys) == Mask(Ctrl)
    ensures IsTriggeredAsWritten(sc, keys)
    ensures !IsTriggered(sc, keys)
  {
    var d, p := sc.modifiers.mask, PressedMask(keys);
    assert d == 0x0F && p == 0x0C && d & p == p;
    assert Popcount(0x0C) == 2 && FamilyCount(0x0C) == 1 && FamilyCount(0x0F) == 2;
    TriggeredBits(sc, keys);
  }

  /** A shortcut on Ctrl alone does not fire as written when both Ctrl keys
      and its key are held; the intended reading fires. */
  lemma AsWrittenMissesBothCtrl(sc: Shortcut, keys: set<Key>)
    requires sc.modifiers.mask == Mask(Ctrl) && sc.key in keys
    requires PressedMask(keys) == Mask(Ctrl)
    ensures !IsTriggeredAsWritten(sc, keys)
    ensures IsTriggered(sc, keys)
  {
    var d, p := sc.modifiers.mask, PressedMask(keys);
    assert d == 0x0C && p == 0x0C && d & p == p;
    assert Popcount(0x0C) == 2 && FamilyCount(0x0C) == 1;
    TriggeredBits(sc, keys);
  }

  lemma PressedBothCtrl(keys: set<Key>)
    requires KeyLeftCtrl in keys && KeyRightCtrl in keys
    requires KeyLeftAlt !in keys && KeyRightAlt !in keys && KeyLeftShift !in keys
    requires KeyRightShift !in keys && KeyLeftMeta !in keys && KeyRightMeta !in keys
    ensures PressedMask(keys) == Mask(Ctrl)
  {
  }

  /** The two inputs that tell the readings apart: `<Ctrl><Alt>-KeyLeft`
      with both Ctrl keys and `KeyLeft` held, and `<Ctrl>-KeyP` with both
      Ctrl keys and `KeyP` held. */
  lemma ReadingsDiffer()
    ensures IsTriggeredAsWritten(NewShortcut([Ctrl, Alt], KeyLeft), {KeyLeftCtrl, KeyRightCtrl, KeyLeft})
    ensures !IsTriggered(NewShortcut([Ctrl, Alt], KeyLeft), {KeyLeftCtrl, KeyRightCtrl, KeyLeft})
    ensures !IsTriggeredAsWritten(NewShortcut([Ctrl], KeyP), {KeyLeftCtrl, KeyRightCtrl, KeyP})
    ensures IsTriggered(NewShortcut([Ctrl], KeyP), {KeyLeftCtrl, KeyRightCtrl, KeyP})
  {
    OrMasksPair(Ctrl, Alt);
    PressedBothCtrl({KeyLeftCtrl, KeyRightCtrl, KeyLeft});
    PressedBothCtrl({KeyLeftCtrl, KeyRightCtrl, KeyP});
    AsWrittenFiresWithoutAlt(NewShortcut([Ctrl, Alt], KeyLeft), {KeyLeftCtrl, KeyRightCtrl, KeyLeft});
    AsWrittenMissesBothCtrl(NewShortcut([Ctrl], KeyP), {KeyLeftCtrl, KeyRightCtrl, KeyP});
  }

  /* The library's own triggering cases, each on the shortcut its text
     parses to. */

  /** The pressed masks of the key sets those cases hold. */
  lemma HeldMasks()
    ensures PressedMask({}) == 0
    ensures PressedMask({KeyLeftCtrl, KeyP}) == 0x04
    ensures PressedMask({KeyRightCtrl, KeyP}) == 0x08
    ensures PressedMask({KeyLeftCtrl, KeyLeftAlt, KeyP}) == 0x05
    ensures PressedMask({KeyLeft}) == 0
    ensures PressedMask({KeyLeftCtrl, KeyLeft}) == 0x04
    ensures PressedMask({KeyLeftCtrl, KeyLeftAlt}) == 0x05
    ensures PressedMask({KeyLeftCtrl, KeyLeftAlt, KeyRight}) == 0x05
    ensures PressedMask({KeyLeftCtrl, KeyLeftAlt, KeyLeft}) == 0x05
    ensures PressedMask({KeyLeftCtrl, KeyRightAlt, KeyLeft}) == 0x06
  {
  }

  /** `<Ctrl>-KeyP` fires with either Ctrl key and `KeyP`, not with nothing
      held and not with an Alt key held besides. */
  lemma TableCtrlP(sc: Shortcut)
    requires sc.modifiers.mask == Mask(Ctrl) && sc.key == KeyP
    ensures !IsTriggeredAsWritten(sc, {}) && !IsTriggered(sc, {})
    ensures IsTriggeredAsWritten(sc, {KeyLeftCtrl, KeyP}) && IsTriggered(sc, {KeyLeftCtrl, KeyP})
    ensures IsTriggeredAsWritten(sc, {KeyRightCtrl, KeyP}) && IsTriggered(sc, {KeyRightCtrl, KeyP})
    ensures !IsTriggeredAsWritten(sc, {KeyLeftCtrl, KeyLeftAlt, KeyP})
    ensures !IsTriggered(sc, {KeyLeftCtrl, KeyLeftAlt, KeyP})
  {
    HeldMasks();
    assert sc.modifiers.mask == 0x0C && sc.key == KeyP && FamilyCount(0x0C) == 1;
    assert Popcount(0x04) == 1 && FamilyCount(0x04) == 1;
    assert Popcount(0x08) == 1 && FamilyCount(0x08) == 1;
    TriggeredBits(sc, {});
    TriggeredBits(sc, {KeyLeftCtrl, KeyP});
    TriggeredBits(sc, {KeyRightCtrl, KeyP});
    TriggeredBits(sc, {KeyLeftCtrl, KeyLeftAlt, KeyP});
  }

  /** The same cases on the shortcut that `<Ctrl>-KeyP` parses to. */
  lemma TriggeredCtrlP(sc: Shortcut)
    requires ParseShortcut("<Ctrl>-KeyP") == Some(sc)
    ensures !IsTriggeredAsWritten(sc, {}) && !IsTriggered(sc, {})
    ensures IsTriggeredAsWritten(sc, {KeyLeftCtrl, KeyP}) && IsTriggered(sc, {KeyLeftCtrl, KeyP})
    ensures IsTriggeredAsWritten(sc, {KeyRightCtrl, KeyP}) && IsTriggered(sc, {KeyRightCtrl, KeyP})
    ensures !IsTriggeredAsWritten(sc, {KeyLeftCtrl, KeyLeftAlt, KeyP})
    ensures !IsTriggered(sc, {KeyLeftCtrl, KeyLeftAlt, KeyP})
  {
    DisplayCtrlP();
    OrMasksPair(Ctrl, Ctrl);
    TableCtrlP(sc);
  }

  lemma LeftCtrlPText()
    ensures Render([LeftCtrl]) + "-" + KeyName(KeyP) == "<LeftCtrl>-KeyP"
  {
    RenderCons(LeftCtrl, []);
    assert [LeftCtrl] + [] == [LeftCtrl];
  }

  /** `<LeftCtrl>-KeyP` fires with the left Ctrl key only. */
  lemma TableLeftCtrlP(sc: Shortcut)
    requires sc.modifiers.mask == Mask(LeftCtrl) && sc.key == KeyP
    ensures IsTriggeredAsWritten(sc, {KeyLeftCtrl, KeyP}) && IsTriggered(sc, {KeyLeftCtrl, KeyP})
    ensures !IsTriggeredAsWritten(sc, {KeyRightCtrl, KeyP}) && !IsTriggered(sc, {KeyRightCtrl, KeyP})
  {
    HeldMasks();
    assert sc.modifiers.mask == 0x04 && sc.key == KeyP && FamilyCount(0x04) == 1;
    assert Popcount(0x04) == 1;
    TriggeredBits(sc, {KeyLeftCtrl, KeyP});
    TriggeredBits(sc, {KeyRightCtrl, KeyP});
  }

  /** The same cases on the shortcut that `<LeftCtrl>-KeyP` parses to. */
  lemma TriggeredLeftCtrlP(sc: Shortcut)
    requires ParseShortcut("<LeftCtrl>-KeyP") == Some(sc)
    ensures IsTriggeredAsWritten(sc, {KeyLeftCtrl, KeyP}) && IsTriggered(sc, {KeyLeftCtrl, KeyP})
    ensures !IsTriggeredAsWritten(sc, {KeyRightCtrl, KeyP}) && !IsTriggered(sc, {KeyRightCtrl, KeyP})
  {
    ParseRendered([LeftCtrl], KeyP);
    LeftCtrlPText();
    OrMasksPair(LeftCtrl, LeftCtrl);
    TableLeftCtrlP(sc);
  }

  lemma LeftCtrlLeftAltText()
    ensures Render([LeftCtrl, LeftAlt]) + "-" + KeyName(KeyLeft) == "<LeftCtrl><LeftAlt>-KeyLeft"
  {
    RenderCons(LeftAlt, []);
    RenderCons(LeftCtrl, [LeftAlt]);
    assert [LeftAlt] + [] == [LeftAlt];
    assert [LeftCtrl] + [LeftAlt] == [LeftCtrl, LeftAlt];
  }

  /** `<LeftCtrl><LeftAlt>-KeyLeft` fires only when exactly the left Ctrl,
      the left Alt and `KeyLeft` are held. */
  lemma TableLeftCtrlLeftAlt(sc: Shortcut)
    requires sc.modifiers.mask == Mask(LeftCtrl) | Mask(LeftAlt) && sc.key == KeyLeft
    ensures !IsTriggeredAsWritten(sc, {}) && !IsTriggered(sc, {})
    ensures !IsTriggeredAsWritten(sc, {KeyLeft}) && !IsTriggered(sc, {KeyLeft})
    ensures !IsTriggeredAsWritten(sc, {KeyLeftCtrl, KeyLeft}) && !IsTriggered(sc, {KeyLeftCtrl, KeyLeft})
    ensures !IsTriggeredAsWritten(sc, {KeyLeftCtrl, KeyLeftAlt})
    ensures !IsTriggered(sc, {KeyLeftCtrl, KeyLeftAlt})
    ensures !IsTriggeredAsWritten(sc, {KeyLeftCtrl, KeyLeftAlt, KeyRight})
    ensures !IsTriggered(sc, {KeyLeftCtrl, KeyLeftAlt, KeyRight})
    ensures IsTriggeredAsWritten(sc, {KeyLeftCtrl, KeyLeftAlt, KeyLeft})
    ensures IsTriggered(sc, {KeyLeftCtrl, KeyLeftAlt, KeyLeft})
    ensures !IsTriggeredAsWritten(sc, {KeyLeftCtrl, KeyRightAlt, KeyLeft})
    ensures !IsTriggered(sc, {KeyLeftCtrl, KeyRightAlt, KeyLeft})
  {
    HeldMasks();
    assert sc.modifiers.mask == 0x05 && sc.key == KeyLeft && FamilyCount(0x05) == 2;
    assert Popcount(0) == 0 && Popcount(0x04) == 1 && Popcount(0x05) == 2;
    TriggeredBits(sc, {});
    TriggeredBits(sc, {KeyLeft});
    TriggeredBits(sc, {KeyLeftCtrl, KeyLeft});
    TriggeredBits(sc, {KeyLeftCtrl, KeyLeftAlt});
    TriggeredBits(sc, {KeyLeftCtrl, KeyLeftAlt, KeyRight});
    TriggeredBits(sc, {KeyLeftCtrl, KeyLeftAlt, KeyLeft});
    TriggeredBits(sc, {KeyLeftCtrl, KeyRightAlt, KeyLeft});
  }

  /** The same cases on the shortcut that `<LeftCtrl><LeftAlt>-KeyLeft` parses to. */
  lemma TriggeredLeftCtrlLeftAlt(sc: Shortcut)
    requires ParseShortcut("<LeftCtrl><LeftAlt>-KeyLeft") == Some(sc)
    ensures !IsTriggeredAsWritten(sc, {}) && !IsTriggered(sc, {})
    ensures !IsTriggeredAsWritten(sc, {KeyLeft}) && !IsTriggered(sc, {KeyLeft})
    ensures !IsTriggeredAsWritten(sc, {KeyLeftCtrl, KeyLeft}) && !IsTriggered(sc, {KeyLeftCtrl, KeyLeft})
    ensures !IsTriggeredAsWritten(sc, {KeyLeftCtrl, KeyLeftAlt})
    ensures !IsTriggered(sc, {KeyLeftCtrl, KeyLeftAlt})
    ensures !IsTriggeredAsWritten(sc, {KeyLeftCtrl, KeyLeftAlt, KeyRight})
    ensures !IsTriggered(sc, {KeyLeftCtrl, KeyLeftAlt, KeyRight})
    ensures IsTriggeredAsWritten(sc, {KeyLeftCtrl, KeyLeftAlt, KeyLeft})
    ensures IsTriggered(sc, {KeyLeftCtrl, KeyLeftAlt, KeyLeft})
    ensures !IsTriggeredAsWritten(sc, {KeyLeftCtrl, KeyRightAlt, KeyLeft})
    ensures !IsTriggered(sc, {KeyLeftCtrl, KeyRightAlt, KeyLeft})
  {
    ParseRendered([LeftCtrl, LeftAlt], KeyLeft);
    LeftCtrlLeftAltText();
    OrMasksPair(LeftCtrl, LeftAlt);
    TableLeftCtrlLeftAlt(sc);
  }

  lemma CtrlAltText()
    ensures Render([Ctrl, Alt]) + "-" + KeyName(KeyLeft) == "<Ctrl><Alt>-KeyLeft"
  {
    RenderCons(Alt, []);
    RenderCons(Ctrl, [Alt]);
    assert [Alt] + [] == [Alt];
    assert [Ctrl] + [Alt] == [Ctrl, Alt];
  }

  /** `<Ctrl><Alt>-KeyLeft` fires with a left Ctrl and a right Alt key. */
  lemma TableCtrlAlt(sc: Shortcut)
    requires sc.modifiers.mask == Mask(Ctrl) | Mask(Alt) && sc.key == KeyLeft
    ensures IsTriggeredAsWritten(sc, {KeyLeftCtrl, KeyRightAlt, KeyLeft})
    ensures IsTriggered(sc, {KeyLeftCtrl, KeyRightAlt, KeyLeft})
  {
    HeldMasks();
    assert sc.modifiers.mask == 0x0F && sc.key == KeyLeft && FamilyCount(0x0F) == 2;
    assert Popcount(0x06) == 2 && FamilyCount(0x06) == 2;
    TriggeredBits(sc, {KeyLeftCtrl, KeyRightAlt, KeyLeft});
  }

  /** The same cases on the shortcut that `<Ctrl><Alt>-KeyLeft` parses to. */
  lemma TriggeredCtrlAlt(sc: Shortcut)
    requires ParseShortcut("<Ctrl><Alt>-KeyLeft") == Some(sc)
    ensures IsTriggeredAsWritten(sc, {KeyLeftCtrl, KeyRightAlt, KeyLeft})
    ensures IsTriggered(sc, {KeyLeftCtrl, KeyRightAlt, KeyLeft})
  {
    ParseRendered([Ctrl, Alt], KeyLeft);
    CtrlAltText();
    OrMasksPair(Ctrl, Alt);
    TableCtrlAlt(sc);
  }


  // ---------------------------------------------------------------------
  // Shortcut events

  /** Whether the shortcut was pressed or released. */
  datatype ShortcutState = Pressed | Released

  /** `as_str`, which is also the state's display text. */
  function StateName(st: ShortcutState): (r: string)
    ensures r == "pressed" <==> st == Pressed
    ensures r == "released" <==> st == Released
  {
    match st
    case Pressed => "pressed"
    case Released => "released"
  }

  /** A shortcut and the state it changed to. */
  datatype ShortcutEvent = ShortcutEvent(shortcut: Shortcut, state: ShortcutState)
}
