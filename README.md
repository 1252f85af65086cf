# evdev-shortcut, modelled in Dafny

evdev-shortcut is a Rust library for global keyboard shortcuts read from
Linux input devices. A shortcut is a set of modifiers plus one key, written
as text like `<Ctrl><Alt>-KeyLeft`. The library parses and prints that text,
derives an identifier from it, and decides whether a shortcut is triggered by
the set of keys currently held. Its listener keeps a registry of shortcuts.
A loop folds raw key events into the held-key set and sends every registered
shortcut that is triggered.

The project has six modules, one per file:

- `Options` (`options.dfy`): the `Option` datatype.
- `Keycodes` (`keycodes.dfy`): a stand-in for the generated key table.
  - It has the eight modifier keys and the four ordinary keys the library's tests use.
  - A key's name is its variant identifier.
- `Masks` (`masks.dfy`): the byte-wide modifier masks and `ModifierList`.
  - `Mask` is `Modifier::mask` and `MaskFromKey` is `Modifier::mask_from_key`.
  - `NewList` is `ModifierList::new`, a fold of `|` over the masks.
  - `Modifiers` is `ModifierList::modifiers`: `AllModifiers` filtered so that a generic modifier hides its two sides.
  - `Len` and `IsEmpty`.
  - The modifier names.
  - The proof that a mask read back as modifiers gives the same mask, and that a canonical list survives the round trip.
- `Strings` (`strings.dfy`): the parts of Rust's `str` API the grammar uses.
  - `find`, `split_once`, `split`, the empty-piece filter, and the two `replace` calls of `identifier`.
  - Each has its round-trip or characterising lemma.
- `Shortcuts` (`shortcuts.dfy`): the text grammar and the rest.
  - `Display` and `FromStr` for `ModifierList` and `Shortcut`, and `Shortcut::new`.
  - `identifier` and `is_triggered`.
  - `ShortcutState::as_str` and `ShortcutEvent`.
  - The library's own test cases.
- `Listener` (`listener.dfy`): the listener.
  - A `ShortcutListener` class whose `shortcuts` set is changed in place by `Add` and `Remove`.
  - `Pass`, the body of the listening loop, with nested loops over devices and events, a `gotEvent` flag, and the emission loop over the registry.
  - `Listen`, which runs the loop over a finite run of batches.

Points of the parsing and triggering code worth knowing:

- `Shortcut::from_str` splits at the first `-` (`split_once`); no modifier or
  key name contains `-`.
- `ModifierList::from_str` splits on `>` and drops empty pieces. So a missing
  final `>` (`<Ctrl-KeyP`) and a doubled `>` (`<Ctrl>>-KeyP`) both parse; they
  are not errors. Only a non-empty piece that is not `<` plus a modifier name is rejected.
  `ParseListAccepts` states exactly which texts are accepted.
- `is_triggered` compares the number of held modifier *bits* with the number
  of *canonical modifiers* of the shortcut. These differ when both keys of a
  family are held (see Findings). The listener model calls the rule as
  written (`Shortcuts.IsTriggeredAsWritten`), as the program does.

## Model

| member | source | states |
|---|---|---|
| Masks.Mask | src/lib.rs:99-114 | the mask table; characterised by `SideMasksPartitionByte` and `GenericIsUnionOfSides` |
| Masks.MaskFromKey | src/lib.rs:116-128 | the key-to-bit table; characterised by `MaskFromKeyIsSideMask` |
| Masks.OrMasks | src/lib.rs:137-139 | the fold of `\|` over the modifiers' masks; characterised by `OrMasksUpper`, `OrMasksLeast`, `OrMasksAppend` |
| Masks.NewList | src/lib.rs:136-140 | `ModifierList::new`; characterised by `NewListIgnoresOrder` and `CanonicalRoundTrip` |
| Masks.Modifiers | src/lib.rs:146-157 | the filter over `ALL_MODIFIERS`; characterised by `ModifiersByFamily`, `ModifiersCanonical`, `ModifiersCoverMask` |
| Masks.Emitted | src/lib.rs:151-155 | the filter's condition: the modifier's bits are all set and no covering generic modifier is fully set; used by `Modifiers` and characterised through `ModifiersByFamily` |
| Masks.CoveredBy | src/lib.rs:149-153 | the inner loop over `COMBINED_MODIFIERS`; unfolded by `CoveredByUnfold` |
| Masks.Len | src/lib.rs:159-161 | `len`; characterised by `LenCountsFamilies` and `EmptyIffNoModifiers` |
| Masks.IsEmpty | src/lib.rs:163-165 | `is_empty`, mask 0; characterised by `EmptyIffNoModifiers` |
| Shortcuts.NewShortcut | src/lib.rs:275-280 | `Shortcut::new`; linked to the text form by `ParseRendered` and `DisplayRendered` |
| Shortcuts.ParseList | src/lib.rs:180-192 | `ModifierList::from_str`; characterised by `ParseListAccepts`, `ParseRender`, `ListRoundTrip` |
| Shortcuts.IsTriggeredAsWritten | src/lib.rs:290-301 | `is_triggered` as written; characterised by `TriggeredBits`, `ReadingsAgree`, the `Table*` lemmas and the counterexamples in `ReadingsDiffer` |
| Shortcuts.IsTriggered | src/lib.rs:290-301 | the corrected reading of `is_triggered` (Findings); characterised by `TriggeredMeaning` |
| Listener.ApplyEvent | src/listener.rs:44-50 | one event's update of the held keys; characterised by `HeldAfter` and `IgnoredEvents` |
| Listener.ApplyEvents | src/listener.rs:41-51 | the fold of the events over the held keys; characterised by `ApplyEventsAppend`, `DevicesInOrder`, `HeldAfter` |
| Masks.SideMasksPartitionByte | src/lib.rs:99-114 | each one-sided modifier owns exactly one bit, distinct sides own disjoint bits, and the eight sides cover the whole byte |
| Masks.GenericIsUnionOfSides | src/lib.rs:99-114 | a generic modifier's mask is the disjoint union of its left and right modifier's masks and contains the mask of every member of its family; a modifier is generic exactly when it is its own family |
| Masks.CombinedModifiersAreGeneric | src/lib.rs:91-96 | `COMBINED_MODIFIERS` lists exactly the four generic modifiers, Alt, Ctrl, Shift, Meta in that order |
| Masks.MaskFromKeyIsSideMask | src/lib.rs:116-128 | a modifier key contributes the mask of its one-sided modifier; every other key contributes 0 |
| Masks.OrMasksAppend | src/lib.rs:136-140 | the fold that builds a list's mask distributes over concatenation |
| Masks.OrMasksUpper | src/lib.rs:136-140 | every listed modifier's bits are in the list's mask |
| Masks.OrMasksLeast | src/lib.rs:136-140 | the list's mask is the least mask holding every listed modifier's bits |
| Masks.OrMasksSubsumed | src/lib.rs:136-140 | a sublist (by membership) has a submask |
| Masks.NewListIgnoresOrder | src/lib.rs:136-140 | `new` depends only on which modifiers are given, not on their order or repetition |
| Masks.ModifiersByFamily | src/lib.rs:146-157 | the modifiers read back from a mask are, in order, the ones of the Alt, Ctrl, Shift and Meta families |
| Masks.PartBits | src/lib.rs:146-157 | per family at most one modifier is emitted; its mask is exactly the family's bits of the list's mask (the generic one when both sides are set) |
| Masks.ModifiersCoverMask | src/lib.rs:136-157 | building a list from the modifiers read back from a mask gives that mask again |
| Masks.LenCountsFamilies | src/lib.rs:159-161 | `len` is the number of families with a bit set, so at most 4 |
| Masks.EmptyIffNoModifiers | src/lib.rs:159-165 | `is_empty` (mask 0) holds exactly when `len` is 0 and no modifier is read back |
| Masks.ModifiersCanonical | src/lib.rs:146-157 | what `modifiers` yields is canonical: strictly increasing in the `ALL_MODIFIERS` order, one modifier per family |
| Masks.CanonicalMeaning | src/lib.rs:76-89 | a canonical list is strictly ordered by `ALL_MODIFIERS` position and has no two modifiers of one family |
| Masks.CanonicalRoundTrip | src/lib.rs:136-157 | for a canonical list, `new` followed by `modifiers` gives the same list back |
| Masks.ModifierListExamples | src/lib.rs:266-271 | the three round-trip cases `[Ctrl]`, `[LeftAlt, LeftCtrl]` and `[Shift, Meta]` come back unchanged |
| Masks.ParseModifier | src/lib.rs:58-74 | the derived modifier parser accepts exactly the variant names, each giving its variant |
| Masks.ParseModifierName | src/lib.rs:58-74 | a displayed modifier parses back to itself; names contain no `-`, `<` or `>` |
| Keycodes.ParseKey | src/lib.rs:231-236 | a key name parses to the key with that name and nothing else parses |
| Keycodes.ParseKeyName | src/lib.rs:231-236 | a displayed key parses back to itself |
| Keycodes.KeyNameHasNoSeparators | src/lib.rs:228 | no key name contains `-`, `<` or `>` |
| Strings.IndexOf | src/lib.rs:228 | `find` returns the first position of the character, or nothing exactly when it is absent |
| Strings.SplitOnce | src/lib.rs:228 | `split_once` is absent exactly when the separator is; otherwise the text is the head, the separator and the tail, with no separator in the head |
| Strings.SplitOnceAfter | src/lib.rs:228 | a text whose first separator follows a separator-free head splits into that head and the rest |
| Strings.Split | src/lib.rs:181 | `split` yields at least one piece and no piece contains the separator |
| Strings.JoinSplit | src/lib.rs:181 | joining the pieces of `split` with the separator gives the text back |
| Strings.SplitJoin | src/lib.rs:181 | separator-free pieces joined by the separator split back into the same pieces |
| Strings.NonEmpty | src/lib.rs:182 | the filter keeps every non-empty piece and only those |
| Strings.NonEmptyAppend | src/lib.rs:182 | the filter distributes over concatenation |
| Strings.RemoveChars | src/lib.rs:284 | `replace(['<', '>'], "")` leaves none of the deleted characters and keeps every other character |
| Strings.RemoveCharsAppend | src/lib.rs:284 | the deletion distributes over concatenation |
| Strings.RemoveCharsNone | src/lib.rs:284 | text without the deleted characters is unchanged |
| Strings.ReplaceChar | src/lib.rs:285 | `replace('-', "_")` keeps the length and changes exactly the replaced character |
| Strings.ReplaceCharAppend | src/lib.rs:285 | the replacement distributes over concatenation |
| Strings.ReplaceCharNone | src/lib.rs:285 | text without the replaced character is unchanged |
| Shortcuts.ListToString | src/lib.rs:168-175 | a displayed list contains no `-`, and is empty exactly when the list is |
| Shortcuts.RenderHasNoDash | src/lib.rs:168-175 | `<Name>` pieces never contain `-` |
| Shortcuts.ParsePiece | src/lib.rs:183-189 | a piece parses exactly when it is `<` followed by a modifier name, and then to that modifier |
| Shortcuts.ParsePieces | src/lib.rs:183-190 | collecting succeeds exactly when every piece parses, and keeps their order |
| Shortcuts.ParseListAccepts | src/lib.rs:180-192 | a modifier-list text parses exactly when every non-empty piece between `>`s parses |
| Shortcuts.SplitRender | src/lib.rs:168-181 | splitting displayed modifiers on `>` gives one `<Name>` piece per modifier and a final empty piece |
| Shortcuts.ParseRender | src/lib.rs:168-192 | parsing `<M1>…<Mn>` gives `new(&[M1, …, Mn])`, whatever the order or repetitions |
| Shortcuts.ListRoundTrip | src/lib.rs:168-192 | a displayed modifier list parses back to itself |
| Shortcuts.ShortcutToString | src/lib.rs:242-250 | the display contains `-` exactly when the shortcut has modifiers |
| Shortcuts.ParseShortcut | src/lib.rs:224-240 | without `-` the text must be a key name and gives no modifiers; with `-` a result is the list before the first `-` and the key after it |
| Shortcuts.ParseShortcutAccepts | src/lib.rs:224-240 | conversely, a `-`-free list text, `-` and a key name parse to that list and key |
| Shortcuts.ParseRendered | src/lib.rs:224-280 | `<M1>…<Mn>-Key` parses to `Shortcut::new(&[M1, …, Mn], Key)` |
| Shortcuts.ShortcutRoundTrip | src/lib.rs:224-250 | every displayed shortcut parses back to itself |
| Shortcuts.DisplayRendered | src/lib.rs:242-250 | a shortcut built from a canonical non-empty list displays as that list, `-` and the key |
| Shortcuts.DisplayBareKey | src/lib.rs:257 | `new(&[], KeyP)` displays as `KeyP` and `KeyP` parses back to it |
| Shortcuts.DisplayCtrlP | src/lib.rs:258 | `new(&[Ctrl], KeyP)` displays as `<Ctrl>-KeyP` and parses back |
| Shortcuts.DisplayCanonicalOrder | src/lib.rs:259 | `new(&[LeftCtrl, LeftAlt], KeyLeft)` displays as `<LeftAlt><LeftCtrl>-KeyLeft` and that text parses back to it |
| Shortcuts.Identifier | src/lib.rs:282-286 | an identifier contains no `<`, `>` or `-` |
| Shortcuts.RemoveRender | src/lib.rs:284 | deleting `<` and `>` from displayed modifiers leaves their names run together |
| Shortcuts.ReplaceSeparator | src/lib.rs:285 | replacing the one `-` between two `-`-free parts joins them with `_` |
| Shortcuts.IdentifierShape | src/lib.rs:282-286 | the identifier is the key name alone, or the canonical modifier names run together, `_` and the key name |
| Shortcuts.IdentifierExample | src/lib.rs:282-286 | `new(&[Meta], KeyN)`, the shortcut of the crate's doc example, has identifier `Meta_KeyN` |
| Shortcuts.PressedMaskInsert | src/lib.rs:292-294 | holding one more key ORs its mask into the pressed mask |
| Shortcuts.FoldKeysIsPressedMask | src/lib.rs:292-294 | the fold over the held keys gives the same pressed mask whatever order the set is walked in |
| Shortcuts.TriggeredBits | src/lib.rs:290-301 | both readings of `is_triggered` in bits: held bits within the shortcut's mask, a count condition, and the key held |
| Shortcuts.TriggeredMeaning | src/lib.rs:290-301 | under the corrected reading `IsTriggered`, a shortcut triggers exactly when its key is held, no held modifier bit lies outside its mask, and every family it names has a held key |
| Shortcuts.FamilyCountOfSubset | src/lib.rs:296-298 | within a mask, the family count stays the same exactly when no family is lost |
| Shortcuts.OtherKeyIrrelevant | src/lib.rs:290-301 | holding one more non-modifier key other than the shortcut's own key changes neither reading |
| Shortcuts.ReadingsAgree | src/lib.rs:296-298 | the as-written and the intended reading agree whenever no family has both its keys held |
| Shortcuts.AsWrittenFiresWithoutAlt | src/lib.rs:296-298 | as written, `<Ctrl><Alt>` fires with both Ctrl keys and no Alt key held; the intended reading does not |
| Shortcuts.AsWrittenMissesBothCtrl | src/lib.rs:296-298 | as written, `<Ctrl>` does not fire with both Ctrl keys held; the intended reading does |
| Shortcuts.ReadingsDiffer | src/lib.rs:296-298 | the two concrete inputs on which the readings differ |
| Shortcuts.HeldMasks | src/lib.rs:292-294 | the pressed masks of the key sets used by the triggering cases |
| Shortcuts.TableCtrlP | src/lib.rs:309-314 | the four `<Ctrl>-KeyP` cases (lines 309-311 and 314) under both readings |
| Shortcuts.TriggeredCtrlP | src/lib.rs:309-325 | the same cases on the shortcut that the text `<Ctrl>-KeyP` parses to |
| Shortcuts.TableLeftCtrlP | src/lib.rs:312-313 | the two `<LeftCtrl>-KeyP` cases under both readings |
| Shortcuts.TriggeredLeftCtrlP | src/lib.rs:312-325 | the same cases on the parsed `<LeftCtrl>-KeyP` |
| Shortcuts.TableLeftCtrlLeftAlt | src/lib.rs:315-321 | the seven `<LeftCtrl><LeftAlt>-KeyLeft` cases under both readings |
| Shortcuts.TriggeredLeftCtrlLeftAlt | src/lib.rs:315-325 | the same cases on the parsed `<LeftCtrl><LeftAlt>-KeyLeft` |
| Shortcuts.TableCtrlAlt | src/lib.rs:322 | `<Ctrl><Alt>-KeyLeft` fires with the left Ctrl and right Alt keys and `KeyLeft` held, under both readings |
| Shortcuts.TriggeredCtrlAlt | src/lib.rs:322-325 | the same case on the parsed `<Ctrl><Alt>-KeyLeft` |
| Shortcuts.StateName | src/lib.rs:336-349 | `as_str` (and so `Display`) gives `pressed` exactly for `Pressed` and `released` exactly for `Released` |
| Listener.ApplyEventsAppend | src/listener.rs:41-51 | folding two runs of events is folding the first and then the second |
| Listener.FlattenAppend | src/listener.rs:37-39 | the flattened events of two runs of devices are the first's followed by the second's |
| Listener.DevicesInOrder | src/listener.rs:37-51 | a batch updates the held keys with the first device's events, then the rest |
| Listener.LastWrite | src/listener.rs:44-50 | locates the last press or release of a key: absent exactly when there is none, and no later one follows it |
| Listener.HeldAfter | src/listener.rs:41-51 | a key is held after a batch exactly when its last press or release was a press, or, with neither, it was held before |
| Listener.EffectiveEvents | src/listener.rs:44-50 | keeps every decodable press and release of the events and nothing else |
| Listener.IgnoredEvents | src/listener.rs:44-50 | undecodable codes and values other than 1 and 0 leave the held keys unchanged |
| Listener.ShortcutListener.constructor | src/listener.rs:15-19 | a new listener has no shortcuts |
| Listener.ShortcutListener.Add | src/listener.rs:68-70 | the registry gains the shortcut and nothing else changes; adding a registered shortcut changes nothing |
| Listener.ShortcutListener.Remove | src/listener.rs:72-74 | the registry loses the shortcut and nothing else changes; removing an absent shortcut changes nothing |
| Listener.ShortcutListener.Triggered | src/listener.rs:53-58 | the shortcuts sent are exactly the registered ones that `is_triggered` as written (`IsTriggeredAsWritten`) accepts on the held keys, each once |
| Listener.ShortcutListener.Pass | src/listener.rs:34-61 | the held keys become the fold of the batch's events, device after device; after a non-empty batch the registered shortcuts that `is_triggered` as written accepts on the new held keys are sent, each once; an empty batch sends nothing and changes nothing |
| Listener.ShortcutListener.Listen | src/listener.rs:31-63 | starting with no key held, each pass sends exactly the registered shortcuts that `is_triggered` as written accepts on the keys held after all events so far, each once, or nothing when its batch was empty (`Sends`) |

## Left out

- Device I/O and concurrency are not modelled: `Device::open`, `device.events()`, the worker thread, the channel, the 10 ms sleep and the `Arc<Mutex<…>>` lock (src/listener.rs:21-31, 60). A batch is an input sequence of `(code, value)` pairs per device. Sending is appending to the returned sequence.
- `Listener.ShortcutListener.Listen` runs a finite number of passes of the endless loop. It reads a registry that does not change between passes, so an `add` or `remove` racing with the loop is not modelled.
- The generated `keycodes` table is not part of this model.
  - `Key` is a stand-in with the eight modifier keys and `KeyP`, `KeyN`, `KeyLeft`, `KeyRight`.
  - `Key::try_from(code)` is the function parameter `decode`.
- The `parse_display` derive is modelled only as far as the library uses it: a modifier's text is its variant name. `ParseError` carries no message; failure is `None`.
- `DeviceOpenError` and its formatting, the crate-level doc example, and examples/listen.rs are not modelled.
- `ModifierList::len`'s `u32` result is an unbounded `nat`; it never exceeds 4 (`Masks.LenCountsFamilies`), so nothing is lost.
- `HashSet` iteration order is not fixed by the model. The pressed mask is proved independent of it (`Shortcuts.FoldKeysIsPressedMask`). The order of sent shortcuts is left unspecified.

## Findings

| source | as written | input that shows it | evidently intended | confidence | as-written member | corrected member |
|---|---|---|---|---|---|---|
| src/lib.rs:296-298 | `desired_presses.count_ones() == self.modifiers.len()` compares held modifier bits with the number of canonical modifiers, so holding both keys of a family counts twice | `<Ctrl><Alt>-KeyLeft` with `KeyLeftCtrl`, `KeyRightCtrl`, `KeyLeft` held fires although no Alt key is held; `<Ctrl>-KeyP` with both Ctrl keys and `KeyP` held does not fire | the held modifiers, read as a modifier list, name as many canonical modifiers as the shortcut: every family the shortcut names has a held key and no other modifier is held | high that the two inputs behave as stated; medium that this was unintended; not executed | Shortcuts.ReadingsDiffer | Shortcuts.TriggeredMeaning |
