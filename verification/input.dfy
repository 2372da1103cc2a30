/**
 The input action table of src/core/Input.ts. Keyboard events arrive as calls
 carrying the event's key string. The key map is a JavaScript `Map`, modelled as
 its entry list in insertion order with distinct keys; the pressed state of each
 action is kept for the current and the previous tick.
 */
module Input {

  import opened Options

  datatype Action = MoveLeft | MoveRight | SoftDrop | HardDrop | RotateLeft | RotateRight | Hold | Pause

  type Key = string

  type KeyMap = seq<(Key, Action)>

  datatype InputManager = InputManager(keyMap: KeyMap, keyState: map<Action, bool>, prevKeyState: map<Action, bool>)

  predicate DistinctKeys(m: KeyMap)
  {
    forall i, j :: 0 <= i < j < |m| ==> m[i].0 != m[j].0
  }

  // ---------------------------------------------------------------------------
  // The ordered map

  /** `Map.get`: the action bound to `k`, if any. */
  function Get(m: KeyMap, k: Key): (r: Option<Action>)
    ensures r.None? <==> forall i :: 0 <= i < |m| ==> m[i].0 != k
    ensures r.Some? ==> exists i :: 0 <= i < |m| && m[i] == (k, r.value)
  {
    if |m| == 0 then None
    else if m[0].0 == k then Some(m[0].1)
    else Get(m[1..], k)
  }

  /** With distinct keys, an entry for `k` is what `Get` finds (from `Get`'s contract). */
  lemma GetEntry(m: KeyMap, i: nat)
    requires DistinctKeys(m) && i < |m|
    ensures Get(m, m[i].0) == Some(m[i].1)
  {
  }

  /**
   `Map.set`: `k` now maps to `a`, every other key keeps its binding, and the
   keys stay distinct. An existing key keeps its place (see SetInPlace); a new
   key is appended at the end.
   */
  function Set(m: KeyMap, k: Key, a: Action): (r: KeyMap)
    requires DistinctKeys(m)
    ensures DistinctKeys(r)
    ensures Get(r, k) == Some(a)
    ensures forall k' :: k' != k ==> Get(r, k') == Get(m, k')
  {
    if |m| == 0 then [(k, a)]
    else if m[0].0 == k then
      var r := [(k, a)] + m[1..];
      assert r[1..] == m[1..];
      assert Get(m[1..], k).None?;
      r
    else
      var rest := Set(m[1..], k, a);
      var r := [m[0]] + rest;
      assert r[1..] == rest;
      assert Get(m[1..], m[0].0).None?;
      r
  }

  /** Splitting off the head commutes with appending at the end. */
  lemma ConsSnoc<T>(s: seq<T>, y: T)
    requires |s| > 0
    ensures [s[0]] + (s[1..] + [y]) == s + [y]
  {
    assert [s[0]] + s[1..] == s;
  }

  /** `Map.set` on a new key appends its entry at the end. */
  lemma {:induction false} SetAppends(m: KeyMap, k: Key, a: Action)
    requires DistinctKeys(m)
    requires forall i :: 0 <= i < |m| ==> m[i].0 != k
    ensures Set(m, k, a) == m + [(k, a)]
  {
    if |m| > 0 {
      var tail := m[1..];
      assert m[0].0 != k;
      assert forall i :: 0 <= i < |tail| ==> tail[i].0 != k by {
        forall i | 0 <= i < |tail| ensures tail[i].0 != k {
          assert tail[i] == m[i + 1];
        }
      }
      SetAppends(tail, k, a);
      assert Set(m, k, a) == [m[0]] + Set(tail, k, a);
      ConsSnoc(m, (k, a));
    }
  }

  /** `Map.set` on a key already present rewrites that entry in place. */
  lemma {:induction false} SetInPlace(m: KeyMap, k: Key, a: Action, j: nat)
    requires DistinctKeys(m) && j < |m| && m[j].0 == k
    ensures |Set(m, k, a)| == |m|
    ensures forall i :: 0 <= i < |m| ==> Set(m, k, a)[i] == (if i == j then (k, a) else m[i])
  {
    var r := Set(m, k, a);
    if j > 0 {
      assert m[0].0 != k;
      SetInPlace(m[1..], k, a, j - 1);
      assert r == [m[0]] + Set(m[1..], k, a);
    } else {
      assert Get(m[1..], k).None?;
    }
  }

  /** The loop of `rebind` that deletes every key bound to `a`. */
  function RemoveAction(m: KeyMap, a: Action): (r: KeyMap)
    requires DistinctKeys(m)
    ensures DistinctKeys(r) && |r| <= |m|
    ensures forall i :: 0 <= i < |r| ==> r[i].1 != a
    ensures forall k :: Get(r, k) == if Get(m, k) == Some(a) then None else Get(m, k)
    ensures forall b :: b != a ==> KeysFor(r, b) == KeysFor(m, b)
  {
    if |m| == 0 then []
    else
      var rest := RemoveAction(m[1..], a);
      assert Get(m[1..], m[0].0).None?;
      if m[0].1 == a then rest
      else
        var r := [m[0]] + rest;
        assert r[1..] == rest;
        r
  }

  /** How a key is shown to the player: the space bar as "Space". */
  function Display(k: Key): Key
  {
    if k == " " then "Space" else k
  }

  /** The loop of `getKeysForAction`: the shown form of each key bound to `a`, in map order. */
  function KeysFor(m: KeyMap, a: Action): (r: seq<Key>)
    ensures |r| <= |m|
    ensures forall i :: 0 <= i < |m| && m[i].1 == a ==> Display(m[i].0) in r
    ensures forall s :: s in r ==> exists i :: 0 <= i < |m| && m[i].1 == a && Display(m[i].0) == s
  {
    if |m| == 0 then []
    else
      var rest := KeysFor(m[1..], a);
      assert forall i :: 1 <= i < |m| ==> m[i] == m[1..][i - 1];
      if m[0].1 == a then [Display(m[0].0)] + rest else rest
  }

  /** The keys are listed in map order: the listing of a concatenation is the concatenation of the listings. */
  lemma {:induction false} KeysForConcat(m1: KeyMap, m2: KeyMap, a: Action)
    ensures KeysFor(m1 + m2, a) == KeysFor(m1, a) + KeysFor(m2, a)
  {
    if |m1| > 0 {
      KeysForConcat(m1[1..], m2, a);
      assert (m1 + m2)[1..] == m1[1..] + m2;
    } else {
      assert m1 + m2 == m2;
    }
  }

  lemma {:induction false} KeysForNone(m: KeyMap, a: Action)
    requires forall i :: 0 <= i < |m| ==> m[i].1 != a
    ensures KeysFor(m, a) == []
  {
    if |m| > 0 {
      KeysForNone(m[1..], a);
    }
  }

  /** Binding `k` to `a` in a map with no binding for `a` leaves `k` as the only key shown for `a`. */
  lemma {:induction false} KeysForAfterSet(m: KeyMap, k: Key, a: Action)
    requires DistinctKeys(m)
    requires forall i :: 0 <= i < |m| ==> m[i].1 != a
    ensures KeysFor(Set(m, k, a), a) == [Display(k)]
  {
    if |m| == 0 {
    } else if m[0].0 == k {
      KeysForNone(m[1..], a);
      assert Set(m, k, a)[1..] == m[1..];
    } else {
      KeysForAfterSet(m[1..], k, a);
      assert Set(m, k, a)[1..] == Set(m[1..], k, a);
    }
  }

  /**
   Binding `k` to `a` leaves the listing of every other action `b` as it was,
   unless `k` itself was bound to `b`.
   */
  lemma {:induction false} SetKeepsOtherListings(m: KeyMap, k: Key, a: Action, b: Action)
    requires DistinctKeys(m) && b != a && Get(m, k) != Some(b)
    ensures KeysFor(Set(m, k, a), b) == KeysFor(m, b)
  {
    if |m| > 0 {
      var r := Set(m, k, a);
      KeysForCons(m, b);
      KeysForCons(r, b);
      if m[0].0 == k {
        assert r[0] == (k, a) && r[1..] == m[1..];
      } else {
        DistinctTail(m);
        assert Get(m[1..], k) == Get(m, k);
        SetKeepsOtherListings(m[1..], k, a, b);
        assert r[0] == m[0] && r[1..] == Set(m[1..], k, a);
      }
    }
  }

  /** One step of the listing loop: the head entry's key, if bound to `b`, then the rest. */
  lemma KeysForCons(m: KeyMap, b: Action)
    requires |m| > 0
    ensures KeysFor(m, b) == (if m[0].1 == b then [Display(m[0].0)] else []) + KeysFor(m[1..], b)
  {
  }

  /** Dropping the first entry keeps the keys distinct. */
  lemma DistinctTail(m: KeyMap)
    requires DistinctKeys(m) && |m| > 0
    ensures DistinctKeys(m[1..])
  {
    forall i, j | 0 <= i < j < |m| - 1
      ensures m[1..][i].0 != m[1..][j].0
    {
      assert m[1..][i] == m[i + 1] && m[1..][j] == m[j + 1];
    }
  }


  // ---------------------------------------------------------------------------
  // The manager

  /** `bindKey`: a plain `Map.set`. */
  function BindKey(im: InputManager, k: Key, a: Action): (r: InputManager)
    requires DistinctKeys(im.keyMap)
    ensures DistinctKeys(r.keyMap) && Get(r.keyMap, k) == Some(a)
    ensures forall k' :: k' != k ==> Get(r.keyMap, k') == Get(im.keyMap, k')
    ensures r.keyState == im.keyState && r.prevKeyState == im.prevKeyState
  {
    im.(keyMap := Set(im.keyMap, k, a))
  }

  /** The default bindings the constructor makes, in order. */
  const DefaultBindings: KeyMap := [
    ("ArrowLeft", MoveLeft), ("ArrowRight", MoveRight), ("ArrowDown", SoftDrop),
    ("ArrowUp", HardDrop), (" ", HardDrop), ("z", RotateLeft), ("x", RotateRight),
    ("c", Hold), ("Shift", Hold), ("Enter", RotateRight), ("Escape", Pause)]

  /** Binds each pair of `bindings` in turn. */
  function BindAll(im: InputManager, bindings: KeyMap): (r: InputManager)
    requires DistinctKeys(im.keyMap)
    ensures DistinctKeys(r.keyMap)
    ensures r.keyState == im.keyState && r.prevKeyState == im.prevKeyState
    decreases |bindings|
  {
    if |bindings| == 0 then im
    else BindAll(BindKey(im, bindings[0].0, bindings[0].1), bindings[1..])
  }

  /** A key that none of `bindings` names keeps its binding. */
  lemma {:induction false} BindAllFrame(im: InputManager, bindings: KeyMap, k: Key)
    requires DistinctKeys(im.keyMap)
    requires forall i :: 0 <= i < |bindings| ==> bindings[i].0 != k
    ensures Get(BindAll(im, bindings).keyMap, k) == Get(im.keyMap, k)
    decreases |bindings|
  {
    if |bindings| > 0 {
      var tail := bindings[1..];
      assert forall i :: 0 <= i < |tail| ==> tail[i] == bindings[i + 1];
      BindAllFrame(BindKey(im, bindings[0].0, bindings[0].1), tail, k);
    }
  }

  /** With distinct keys in `bindings`, each one ends up bound to its action. */
  lemma {:induction false} BindAllBinds(im: InputManager, bindings: KeyMap, j: nat)
    requires DistinctKeys(im.keyMap) && DistinctKeys(bindings) && j < |bindings|
    ensures Get(BindAll(im, bindings).keyMap, bindings[j].0) == Some(bindings[j].1)
    decreases |bindings|
  {
    var next := BindKey(im, bindings[0].0, bindings[0].1);
    var tail := bindings[1..];
    assert forall i :: 0 <= i < |tail| ==> tail[i] == bindings[i + 1];
    if j == 0 {
      BindAllFrame(next, tail, bindings[0].0);
    } else {
      BindAllBinds(next, tail, j - 1);
    }
  }

  /** The default keys are told apart by their length and last character. */
  lemma DefaultKeysDistinct()
    ensures DistinctKeys(DefaultBindings)
  {
    var keys := seq(|DefaultBindings|, i requires 0 <= i < |DefaultBindings| => DefaultBindings[i].0);
    assert keys == ["ArrowLeft", "ArrowRight", "ArrowDown", "ArrowUp", " ", "z", "x", "c", "Shift", "Enter", "Escape"];
    var tags := seq(|keys|, i requires 0 <= i < |keys| => (|keys[i]|, keys[i][|keys[i]| - 1]));
    assert tags == [(9, 't'), (10, 't'), (9, 'n'), (7, 'p'), (1, ' '), (1, 'z'), (1, 'x'), (1, 'c'), (5, 't'), (5, 'r'), (6, 'e')];
    forall i, j | 0 <= i < j < |DefaultBindings|
      ensures DefaultBindings[i].0 != DefaultBindings[j].0
    {
      assert tags[i] != tags[j];
    }
  }

  /** The constructor: no action held or pressed, and the default bindings made in order. */
  function NewInputManager(): (r: InputManager)
    ensures DistinctKeys(r.keyMap)
    ensures forall a :: !IsDown(r, a) && !IsPressed(r, a) && !WasDown(r, a)
  {
    BindAll(InputManager([], map[], map[]), DefaultBindings)
  }

  /** A map with distinct keys split in two: the front part has distinct keys and none of the back part's. */
  lemma DistinctSplit(m: KeyMap, bindings: KeyMap)
    requires DistinctKeys(m + bindings) && |bindings| > 0
    ensures DistinctKeys(m)
    ensures forall i :: 0 <= i < |m| ==> m[i].0 != bindings[0].0
    ensures (m + [bindings[0]]) + bindings[1..] == m + bindings
  {
    var mb := m + bindings;
    forall i, j | 0 <= i < j < |m|
      ensures m[i].0 != m[j].0
    {
      assert mb[i] == m[i] && mb[j] == m[j];
    }
    forall i | 0 <= i < |m|
      ensures m[i].0 != bindings[0].0
    {
      assert mb[i] == m[i] && mb[|m|] == bindings[0];
    }
    assert [bindings[0]] + bindings[1..] == bindings;
  }

  /** Binding keys that are all new appends them to the map, in order. */
  lemma {:induction false} BindAllAppends(im: InputManager, bindings: KeyMap)
    requires DistinctKeys(im.keyMap) && DistinctKeys(im.keyMap + bindings)
    ensures BindAll(im, bindings).keyMap == im.keyMap + bindings
    decreases |bindings|
  {
    if |bindings| == 0 {
      assert im.keyMap + bindings == im.keyMap;
    } else {
      var m, k, a := im.keyMap, bindings[0].0, bindings[0].1;
      DistinctSplit(m, bindings);
      SetAppends(m, k, a);
      var next := BindKey(im, k, a);
      assert next.keyMap == m + [bindings[0]];
      BindAllAppends(next, bindings[1..]);
    }
  }

  /**
   After construction the map is exactly the default bindings in order: each
   default key is bound to its action and no other key is bound.
   */
  lemma NewInputManagerBindings()
    ensures NewInputManager().keyMap == DefaultBindings
    ensures forall i :: 0 <= i < |DefaultBindings| ==>
      GetActionForKey(NewInputManager(), DefaultBindings[i].0) == Some(DefaultBindings[i].1)
  {
    DefaultKeysDistinct();
    assert [] + DefaultBindings == DefaultBindings;
    BindAllAppends(InputManager([], map[], map[]), DefaultBindings);
    var m := NewInputManager().keyMap;
    forall i | 0 <= i < |m|
      ensures Get(m, m[i].0) == Some(m[i].1)
    {
      GetEntry(m, i);
    }
  }

  /** `isDown`: the action's key is held now. */
  predicate IsDown(im: InputManager, a: Action)
  {
    a in im.keyState && im.keyState[a]
  }

  predicate WasDown(im: InputManager, a: Action)
  {
    a in im.prevKeyState && im.prevKeyState[a]
  }

  /** `isPressed`: held now but not at the previous tick; a press is always a hold. */
  function IsPressed(im: InputManager, a: Action): (pressed: bool)
    ensures pressed ==> IsDown(im, a)
    ensures pressed <==> IsDown(im, a) && !WasDown(im, a)
  {
    IsDown(im, a) && !WasDown(im, a)
  }

  /**
   `onKeyDown`: an unbound key changes nothing; a bound key marks its action
   held and touches no other action, binding or previous state.
   */
  function OnKeyDown(im: InputManager, k: Key): (r: InputManager)
    ensures Get(im.keyMap, k).None? ==> r == im
    ensures r.keyMap == im.keyMap && r.prevKeyState == im.prevKeyState
    ensures Get(im.keyMap, k).Some? ==> IsDown(r, Get(im.keyMap, k).value)
    ensures forall a :: Get(im.keyMap, k) != Some(a) ==> IsDown(r, a) == IsDown(im, a)
  {
    match Get(im.keyMap, k)
    case None => im
    case Some(a) => im.(keyState := im.keyState[a := true])
  }

  /** `onKeyUp`: like `onKeyDown`, marking the bound action released. */
  function OnKeyUp(im: InputManager, k: Key): (r: InputManager)
    ensures Get(im.keyMap, k).None? ==> r == im
    ensures r.keyMap == im.keyMap && r.prevKeyState == im.prevKeyState
    ensures Get(im.keyMap, k).Some? ==> !IsDown(r, Get(im.keyMap, k).value)
    ensures forall a :: Get(im.keyMap, k) != Some(a) ==> IsDown(r, a) == IsDown(im, a)
  {
    match Get(im.keyMap, k)
    case None => im
    case Some(a) => im.(keyState := im.keyState[a := false])
  }

  /** `update`: the current state becomes the previous one, so nothing counts as just pressed. */
  function Update(im: InputManager): (r: InputManager)
    ensures forall a :: !IsPressed(r, a) && IsDown(r, a) == IsDown(im, a)
    ensures r.keyMap == im.keyMap && r.keyState == im.keyState
    ensures forall a :: WasDown(r, a) == IsDown(im, a)
  {
    im.(prevKeyState := im.keyState)
  }

  /**
   `rebind(a, k)`: every key bound to `a` is unbound, then `k` is bound to `a`.
   Afterwards `k` maps to `a` and is the only key shown for `a`; every other key
   keeps its binding unless that binding was to `a`.
   */
  function Rebind(im: InputManager, a: Action, k: Key): (r: InputManager)
    requires DistinctKeys(im.keyMap)
    ensures DistinctKeys(r.keyMap)
    ensures GetActionForKey(r, k) == Some(a)
    ensures GetKeysForAction(r, a) == [Display(k)]
    ensures forall k' :: k' != k ==>
      GetActionForKey(r, k') == if GetActionForKey(im, k') == Some(a) then None else GetActionForKey(im, k')
    ensures forall b :: b != a && GetActionForKey(im, k) != Some(b) ==>
      GetKeysForAction(r, b) == GetKeysForAction(im, b)
    ensures r.keyState == im.keyState && r.prevKeyState == im.prevKeyState
  {
    var cleared := RemoveAction(im.keyMap, a);
    KeysForAfterSet(cleared, k, a);
    forall b | b != a && GetActionForKey(im, k) != Some(b)
      ensures KeysFor(Set(cleared, k, a), b) == KeysFor(im.keyMap, b)
    {
      SetKeepsOtherListings(cleared, k, a, b);
    }
    im.(keyMap := Set(cleared, k, a))
  }

  /** `getActionForKey`. */
  function GetActionForKey(im: InputManager, k: Key): (r: Option<Action>)
    ensures r.Some? ==> exists i :: 0 <= i < |im.keyMap| && im.keyMap[i] == (k, r.value)
    ensures r.None? ==> forall i :: 0 <= i < |im.keyMap| ==> im.keyMap[i].0 != k
  {
    Get(im.keyMap, k)
  }

  /** `getKeysForAction`: the shown form of every key bound to `a`, and nothing else. */
  function GetKeysForAction(im: InputManager, a: Action): (r: seq<Key>)
    ensures forall i :: 0 <= i < |im.keyMap| && im.keyMap[i].1 == a ==> Display(im.keyMap[i].0) in r
    ensures forall s :: s in r ==> exists i :: 0 <= i < |im.keyMap| && im.keyMap[i].1 == a && Display(im.keyMap[i].0) == s
  {
    KeysFor(im.keyMap, a)
  }
}
