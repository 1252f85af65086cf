/** Keys of the input layer.  The library's real key table is generated from
    the kernel's key codes and is not part of this model; this stand-in keeps
    the eight modifier keys and four ordinary keys, which is every key the
    library's own tests use.  A key's name is its variant identifier. */
module Keycodes {
  import opened Options

  datatype Key =
    | KeyLeftAlt | KeyRightAlt
    | KeyLeftCtrl | KeyRightCtrl
    | KeyLeftMeta | KeyRightMeta
    | KeyLeftShift | KeyRightShift
    | KeyP | KeyN | KeyLeft | KeyRight

  function KeyName(k: Key): string
  {
    match k
    case KeyLeftAlt => "KeyLeftAlt"
    case KeyRightAlt => "KeyRightAlt"
    case KeyLeftCtrl => "KeyLeftCtrl"
    case KeyRightCtrl => "KeyRightCtrl"
    case KeyLeftMeta => "KeyLeftMeta"
    case KeyRightMeta => "KeyRightMeta"
    case KeyLeftShift => "KeyLeftShift"
    case KeyRightShift => "KeyRightShift"
    case KeyP => "KeyP"
    case KeyN => "KeyN"
    case KeyLeft => "KeyLeft"
    case KeyRight => "KeyRight"
  }

  /** Parses a key name: exactly the inverse of `KeyName`. */
  function ParseKey(s: string): (r: Option<Key>)
    ensures r.Some? ==> KeyName(r.value) == s
    ensures r.None? ==> forall k :: KeyName(k) != s
  {
    if s == "KeyLeftAlt" then Some(KeyLeftAlt)
    else if s == "KeyRightAlt" then Some(KeyRightAlt)
    else if s == "KeyLeftCtrl" then Some(KeyLeftCtrl)
    else if s == "KeyRightCtrl" then Some(KeyRightCtrl)
    else if s == "KeyLeftMeta" then Some(KeyLeftMeta)
    else if s == "KeyRightMeta" then Some(KeyRightMeta)
    else if s == "KeyLeftShift" then Some(KeyLeftShift)
    else if s == "KeyRightShift" then Some(KeyRightShift)
    else if s == "KeyP" then Some(KeyP)
    else if s == "KeyN" then Some(KeyN)
    else if s == "KeyLeft" then Some(KeyLeft)
    else if s == "KeyRight" then Some(KeyRight)
    else None
  }

  /** Key names are injective, so a displayed key parses back to itself. */
  lemma ParseKeyName(k: Key)
    ensures ParseKey(KeyName(k)) == Some(k)
  {
  }

  /** No key name contains a character of the shortcut grammar. */
  lemma KeyNameHasNoSeparators(k: Key)
    ensures '-' !in KeyName(k) && '<' !in KeyName(k) && '>' !in KeyName(k)
  {
  }
}
