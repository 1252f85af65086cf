/*
 * The shortcut listener: a registry of shortcuts that `add` and `remove`
 * change in place, and the body of the listening loop, which folds each
 * batch of raw key events into the set of held keys and then sends every
 * registered shortcut that is triggered.  Opening devices, reading their
 * events, the worker thread, the channel and the sleep between empty
 * batches are outside the model: a batch is given as one sequence of raw
 * events per device, and decoding a key code is the parameter `decode`.
 */
module Listener {
  import opened Options
  import opened Keycodes
  import opened Shortcuts

  /** One raw input event: the key code and its value (1 press, 0 release,
      anything else such as 2 for auto-repeat). */
  datatype RawEvent = RawEvent(code: int, value: int)

  /** The update one event makes to the set of held keys. */
  function ApplyEvent(keys: set<Key>, ev: RawEvent, decode: int -> Option<Key>): set<Key>
  {
    match decode(ev.code)
    case None => keys
    case Some(k) =>
      if ev.value == 1 then keys + {k}
      else if ev.value == 0 then keys - {k}
      else keys
  }

  /** The events applied one after the other, first to last. */
  function ApplyEvents(keys: set<Key>, es: seq<RawEvent>, decode: int -> Option<Key>): set<Key>
  {
    if es == [] then keys
    else ApplyEvent(ApplyEvents(keys, es[..|es| - 1], decode), es[|es| - 1], decode)
  }

  /** The events of all devices of one batch, device after device. */
  function Flatten(batch: seq<seq<RawEvent>>): seq<RawEvent>
  {
    if batch == [] then [] else Flatten(batch[..|batch| - 1]) + batch[|batch| - 1]
  }

  /** The events of several batches, batch after batch. */
  function EventsOf(batches: seq<seq<seq<RawEvent>>>): seq<RawEvent>
  {
    if batches == [] then [] else EventsOf(batches[..|batches| - 1]) + Flatten(batches[|batches| - 1])
  }

  // ---------------------------------------------------------------------
  // Properties of the key-state fold

  /** Applying two runs of events is applying the first, then the second. */
  lemma {:induction false} ApplyEventsAppend(keys: set<Key>, a: seq<RawEvent>, b: seq<RawEvent>, decode: int -> Option<Key>)
    ensures ApplyEvents(keys, a + b, decode) == ApplyEvents(ApplyEvents(keys, a, decode), b, decode)
    decreases |b|
  {
    if b == [] {
      assert a + b == a;
    } else {
      var b' := b[..|b| - 1];
      assert (a + b)[..|a + b| - 1] == a + b';
      assert (a + b)[|a + b| - 1] == b[|b| - 1];
      ApplyEventsAppend(keys, a, b', decode);
    }
  }

  /** Flattening two runs of devices is flattening each. */
  lemma {:induction false} FlattenAppend(a: seq<seq<RawEvent>>, b: seq<seq<RawEvent>>)
    ensures Flatten(a + b) == Flatten(a) + Flatten(b)
    decreases |b|
  {
    if b == [] {
      assert a + b == a;
    } else {
      var b' := b[..|b| - 1];
      assert (a + b)[..|a + b| - 1] == a + b';
      assert (a + b)[|a + b| - 1] == b[|b| - 1];
      FlattenAppend(a, b');
    }
  }

  /** A batch updates the held keys as its devices do one after the other:
      the first device's events, then the rest. */
  lemma DevicesInOrder(keys: set<Key>, d: seq<RawEvent>, rest: seq<seq<RawEvent>>, decode: int -> Option<Key>)
    ensures ApplyEvents(keys, Flatten([d] + rest), decode) ==
            ApplyEvents(ApplyEvents(keys, d, decode), Flatten(rest), decode)
  {
    FlattenAppend([d], rest);
    assert [d][..0] == [];
    assert Flatten([d]) == Flatten([]) + d == d;
    ApplyEventsAppend(keys, d, Flatten(rest), decode);
  }

  /** Whether `ev` decides if `x` is held: a press or release of `x`. */
  predicate Writes(ev: RawEvent, x: Key, decode: int -> Option<Key>)
  {
    decode(ev.code) == Some(x) && (ev.value == 1 || ev.value == 0)
  }

  /** Where in `es` the last press or release of `x` is. */
  function LastWrite(es: seq<RawEvent>, x: Key, decode: int -> Option<Key>): (r: Option<nat>)
    ensures r.None? <==> forall i :: 0 <= i < |es| ==> !Writes(es[i], x, decode)
    ensures r.Some? ==> r.value < |es| && Writes(es[r.value], x, decode)
    ensures r.Some? ==> forall j :: r.value < j < |es| ==> !Writes(es[j], x, decode)
  {
    if es == [] then None
    else if Writes(es[|es| - 1], x, decode) then Some(|es| - 1)
    else
      var init := es[..|es| - 1];
      assert forall i :: 0 <= i < |init| ==> es[i] == init[i];
      LastWrite(init, x, decode)
  }

  /** A key is held after the events exactly when its last press or release
      among them was a press, or, with neither, when it was held before. */
  lemma {:induction false} HeldAfter(keys: set<Key>, es: seq<RawEvent>, x: Key, decode: int -> Option<Key>)
    ensures x in ApplyEvents(keys, es, decode) <==>
            match LastWrite(es, x, decode)
            case None => x in keys
            case Some(i) => es[i].value == 1
    decreases |es|
  {
    if es != [] {
      var init := es[..|es| - 1];
      HeldAfter(keys, init, x, decode);
      if !Writes(es[|es| - 1], x, decode) {
        match LastWrite(init, x, decode)
        case None =>
        case Some(i) => assert es[i] == init[i];
      }
    }
  }

  /** Whether an event changes anything: a press or release of a decodable
      key. */
  predicate Effective(ev: RawEvent, decode: int -> Option<Key>)
  {
    decode(ev.code).Some? && (ev.value == 1 || ev.value == 0)
  }

  /** The effective events of `es`, in order. */
  function EffectiveEvents(es: seq<RawEvent>, decode: int -> Option<Key>): (r: seq<RawEvent>)
    ensures |r| <= |es|
    ensures forall i :: 0 <= i < |r| ==> Effective(r[i], decode) && r[i] in es
    ensures forall i :: 0 <= i < |es| && Effective(es[i], decode) ==> es[i] in r
  {
    if es == [] then []
    else
      var init, last := es[..|es| - 1], es[|es| - 1];
      assert forall e :: e in init ==> e in es;
      assert forall i :: 0 <= i < |init| ==> es[i] == init[i];
      if Effective(last, decode) then EffectiveEvents(init, decode) + [last]
      else EffectiveEvents(init, decode)
  }

  /** Undecodable codes and values other than 1 and 0 are ignored: only the
      effective events count. */
  lemma {:induction false} IgnoredEvents(keys: set<Key>, es: seq<RawEvent>, decode: int -> Option<Key>)
    ensures ApplyEvents(keys, es, decode) == ApplyEvents(keys, EffectiveEvents(es, decode), decode)
    decreases |es|
  {
    if es != [] {
      var init, last := es[..|es| - 1], es[|es| - 1];
      IgnoredEvents(keys, init, decode);
      var r := EffectiveEvents(init, decode);
      if Effective(last, decode) {
        assert (r + [last])[..|r + [last]| - 1] == r;
      }
    }
  }

  // ---------------------------------------------------------------------
  // The listener

  class ShortcutListener {
    /** The registered shortcuts. */
    var shortcuts: set<Shortcut>

    constructor()
      ensures shortcuts == {}
    {
      shortcuts := {};
    }

    /** `add`: `s` is registered, every other shortcut stays as it was. */
    method Add(s: Shortcut)
      modifies this`shortcuts
      ensures shortcuts == old(shortcuts) + {s}
      ensures s in old(shortcuts) ==> shortcuts == old(shortcuts)
    {
      shortcuts := shortcuts + {s};
    }

    /** `remove`: `s` is not registered, every other shortcut stays as it
        was. */
    method Remove(s: Shortcut)
      modifies this`shortcuts
      ensures shortcuts == old(shortcuts) - {s}
      ensures s !in old(shortcuts) ==> shortcuts == old(shortcuts)
    {
      shortcuts := shortcuts - {s};
    }

    /** The registered shortcuts that are triggered by the held keys, each
        once, in the order the set happens to be walked. */
    method Triggered(keys: set<Key>) returns (sent: seq<Shortcut>)
      ensures forall s :: s in sent <==> s in shortcuts && IsTriggeredAsWritten(s, keys)
      ensures forall i, j :: 0 <= i < j < |sent| ==> sent[i] != sent[j]
    {
      sent := [];
      var rest := shortcuts;
      while rest != {}
        invariant rest <= shortcuts
        invariant forall s :: s in sent <==> s in shortcuts - rest && IsTriggeredAsWritten(s, keys)
        invariant forall i, j :: 0 <= i < j < |sent| ==> sent[i] != sent[j]
        decreases rest
      {
        var s :| s in rest;
        if IsTriggeredAsWritten(s, keys) {
          sent := sent + [s];
        }
        rest := rest - {s};
      }
    }

    /** One pass of the listening loop: every event of the batch, device
        after device, updates the held keys; if there was any event, the
        triggered shortcuts are sent. */
    method Pass(keys: set<Key>, batch: seq<seq<RawEvent>>, decode: int -> Option<Key>)
      returns (keys': set<Key>, sent: seq<Shortcut>)
      ensures keys' == ApplyEvents(keys, Flatten(batch), decode)
      ensures Flatten(batch) == [] ==> keys' == keys && sent == []
      ensures Flatten(batch) != [] ==> forall s :: s in sent <==> s in shortcuts && IsTriggeredAsWritten(s, keys')
      ensures forall i, j :: 0 <= i < j < |sent| ==> sent[i] != sent[j]
    {
      keys' := keys;
      var gotEvent := false;
      var d := 0;
      while d < |batch|
        invariant 0 <= d <= |batch|
        invariant keys' == ApplyEvents(keys, Flatten(batch[..d]), decode)
        invariant gotEvent <==> Flatten(batch[..d]) != []
      {
        var i := 0;
        assert batch[d][..0] == [] && Flatten(batch[..d]) + [] == Flatten(batch[..d]);
        while i < |batch[d]|
          invariant 0 <= i <= |batch[d]|
          invariant keys' == ApplyEvents(keys, Flatten(batch[..d]) + batch[d][..i], decode)
          invariant gotEvent <==> Flatten(batch[..d]) + batch[d][..i] != []
        {
          var ev := batch[d][i];
          gotEvent := true;
          match decode(ev.code) {
            case Some(k) =>
              if ev.value == 1 {
                keys' := keys' + {k};
              } else if ev.value == 0 {
                keys' := keys' - {k};
              }
            case None =>
          }
          assert batch[d][..i + 1] == batch[d][..i] + [ev];
          assert (Flatten(batch[..d]) + batch[d][..i + 1])[..|Flatten(batch[..d]) + batch[d][..i + 1]| - 1]
              == Flatten(batch[..d]) + batch[d][..i];
          i := i + 1;
        }
        assert batch[d][..i] == batch[d];
        assert batch[..d + 1][..d] == batch[..d];
        d := d + 1;
      }
      assert batch[..d] == batch;
      if gotEvent {
        sent := Triggered(keys');
      } else {
        sent := [];
      }
    }

    /** What a pass over `batch` must send when the held keys end up as
        `keys`: nothing after an empty batch, otherwise exactly the
        registered shortcuts that are triggered, each once. */
    ghost predicate Sends(sent: seq<Shortcut>, batch: seq<seq<RawEvent>>, keys: set<Key>)
      reads this
    {
      (forall i, j :: 0 <= i < j < |sent| ==> sent[i] != sent[j]) &&
      if Flatten(batch) == [] then sent == []
      else forall s :: s in sent <==> s in shortcuts && IsTriggeredAsWritten(s, keys)
    }

    /** The listening loop over a run of batches, starting with no key held:
        for each batch, what its pass sent, given the keys held after all
        events so far. */
    method Listen(batches: seq<seq<seq<RawEvent>>>, decode: int -> Option<Key>)
      returns (out: seq<seq<Shortcut>>)
      ensures |out| == |batches|
      ensures forall n :: 0 <= n < |batches| ==>
        Sends(out[n], batches[n], ApplyEvents({}, EventsOf(batches[..n + 1]), decode))
    {
      var keys: set<Key> := {};
      out := [];
      var n := 0;
      while n < |batches|
        invariant 0 <= n <= |batches|
        invariant |out| == n
        invariant keys == ApplyEvents({}, EventsOf(batches[..n]), decode)
        invariant forall m :: 0 <= m < n ==>
          Sends(out[m], batches[m], ApplyEvents({}, EventsOf(batches[..m + 1]), decode))
      {
        var sent;
        assert batches[..n + 1][..n] == batches[..n];
        assert EventsOf(batches[..n + 1]) == EventsOf(batches[..n]) + Flatten(batches[n]);
        ApplyEventsAppend({}, EventsOf(batches[..n]), Flatten(batches[n]), decode);
        keys, sent := Pass(keys, batches[n], decode);
        assert Sends(sent, batches[n], keys);
        ghost var before := out;
        out := out + [sent];
        forall m | 0 <= m < n + 1
          ensures Sends(out[m], batches[m], ApplyEvents({}, EventsOf(batches[..m + 1]), decode))
        {
          if m < n {
            assert out[m] == before[m];
          }
        }
        n := n + 1;
      }
    }
  }
}
