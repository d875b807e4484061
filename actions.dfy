/**
 * The three kinds of action a key or stick zone can be bound to
 * (KeyAction, CommandAction, PipeOutAction), their construction, what
 * `act` does for each, their `dump` text, and the MakeAction factory.
 *
 * Actions never change after construction, so they are values.  `act`
 * cannot reach the device here; it returns the Effect that the device
 * then carries out (key events to send, a command to resubmit, text for
 * the output pipe).
 */
module Actions {
  import opened Wrappers
  import opened Text
  import opened Keys
  import opened Formatter

  datatype Action =
    | KeyAction(keys: seq<KeyState>, keysUp: seq<KeyState>)
    | CommandAction(cmd: string)
    | PipeOutAction(out: string)

  /** One EV_KEY event sent to the uinput device. */
  datatype KeyEvent = KeyEvent(code: LinuxKey, down: bool)

  /** What `act` asks of the device. */
  datatype Effect =
    | SendEvents(events: seq<KeyEvent>)
    | Resubmit(cmd: string)
    | PipeWrite(text: string)
    | NoEffect

  // ----------------------------------------------------- KeyAction parsing

  /** The scan lambda: each '+'-separated name resolved in order; the first unknown one throws. */
  function ScanKeys(inputNameToKey: map<string, LinuxKey>, pieces: seq<string>): (r: Result<seq<KeyState>>)
    ensures r.Success? ==> |r.value| == |pieces|
    ensures r.Success? ==> forall i | 0 <= i < |pieces| ::
      r.value[i] == FindInputKeyValue(inputNameToKey, pieces[i], true) && r.value[i].code != BAD_KEY_VALUE
    ensures r.Failure? <==> exists i | 0 <= i < |pieces| :: FindInputKeyValue(inputNameToKey, pieces[i], true).code == BAD_KEY_VALUE
    decreases |pieces|
  {
    if pieces == [] then Success([])
    else
      match ScanKeys(inputNameToKey, pieces[..|pieces| - 1])
      case Failure(e) => Failure(e)
      case Success(init) =>
        var last := pieces[|pieces| - 1];
        var k := FindInputKeyValue(inputNameToKey, last, true);
        if k.code == BAD_KEY_VALUE then Failure("create action unknown key : " + last)
        else Success(init + [k])
  }

  /** Once a prefix of the pieces fails, the whole scan fails the same way. */
  lemma {:induction false} ScanKeysFailurePrefix(inputNameToKey: map<string, LinuxKey>, pieces: seq<string>, j: nat)
    requires j <= |pieces| && ScanKeys(inputNameToKey, pieces[..j]).Failure?
    ensures ScanKeys(inputNameToKey, pieces) == ScanKeys(inputNameToKey, pieces[..j])
    decreases |pieces| - j
  {
    if j < |pieces| {
      var q := pieces[..j + 1];
      assert q[..j] == pieces[..j];
      ScanKeysFailurePrefix(inputNameToKey, pieces, j + 1);
    } else {
      assert pieces[..j] == pieces;
    }
  }

  /**
   * The KeyAction constructor: the chord spec is split on spaces; field 0,
   * split on '+', is the primary chord; field 1, if present, the release
   * chord; later fields are ignored.
   */
  function ParseKeyAction(inputNameToKey: map<string, LinuxKey>, keysString: string): Result<Action>
  {
    var fields := Split(keysString, " ", EmptiesOk);
    SplitKeepEmptiesPieces(keysString, " ");
    match ScanKeys(inputNameToKey, Split(fields[0], "+", EmptiesOk))
    case Failure(e) => Failure(e)
    case Success(keys) =>
      if |fields| > 1 then
        match ScanKeys(inputNameToKey, Split(fields[1], "+", EmptiesOk))
        case Failure(e) => Failure(e)
        case Success(keysUp) => Success(KeyAction(keys, keysUp))
      else Success(KeyAction(keys, []))
  }

  /** The scan lambda as the loop that push_backs into the chord. */
  method Scan(inputNameToKey: map<string, LinuxKey>, input: string) returns (r: Result<seq<KeyState>>)
    ensures r == ScanKeys(inputNameToKey, Split(input, "+", EmptiesOk))
  {
    var pieces := Split(input, "+", EmptiesOk);
    var out: seq<KeyState> := [];
    for i := 0 to |pieces|
      invariant ScanKeys(inputNameToKey, pieces[..i]) == Success(out)
    {
      assert pieces[..i + 1][..i] == pieces[..i];
      var keyVal := FindInputKeyValue(inputNameToKey, pieces[i], true);
      if keyVal.Key() == BAD_KEY_VALUE {
        ScanKeysFailurePrefix(inputNameToKey, pieces, i + 1);
        return Failure("create action unknown key : " + pieces[i]);
      }
      out := out + [keyVal];
    }
    assert pieces[..|pieces|] == pieces;
    r := Success(out);
  }

  /** The KeyAction constructor. */
  method NewKeyAction(inputNameToKey: map<string, LinuxKey>, keysString: string) returns (r: Result<Action>)
    ensures r == ParseKeyAction(inputNameToKey, keysString)
    ensures r.Success? ==> r.value.KeyAction?
  {
    var keyDownUp := Split(keysString, " ", EmptiesOk);
    SplitKeepEmptiesPieces(keysString, " ");
    var keys := Scan(inputNameToKey, keyDownUp[0]);
    if keys.Failure? {
      return Failure(keys.error);
    }
    var keysUp: seq<KeyState> := [];
    if |keyDownUp| > 1 {
      var up := Scan(inputNameToKey, keyDownUp[1]);
      if up.Failure? {
        return Failure(up.error);
      }
      keysUp := up.value;
    }
    r := Success(KeyAction(keys.value, keysUp));
  }

  /** Every chord entry of a parsed KeyAction is a known key, in the order written. */
  lemma ParseKeyActionFields(inputNameToKey: map<string, LinuxKey>, keysString: string)
    requires ParseKeyAction(inputNameToKey, keysString).Success?
    ensures var a := ParseKeyAction(inputNameToKey, keysString).value;
      var fields := Split(keysString, " ", EmptiesOk);
      var primary := Split(fields[0], "+", EmptiesOk);
      a.KeyAction? && |a.keys| == |primary| &&
      (forall i | 0 <= i < |primary| :: a.keys[i] == FindInputKeyValue(inputNameToKey, primary[i], true)) &&
      (|fields| == 1 <==> a.keysUp == []) &&
      (forall k | k in a.keys + a.keysUp :: k.code != BAD_KEY_VALUE)
  {
    var fields := Split(keysString, " ", EmptiesOk);
    SplitKeepEmptiesPieces(keysString, " ");
    if |fields| > 1 {
      SplitKeepEmptiesPieces(fields[1], "+");
    }
  }

  // ------------------------------------------------------------ KeyAction::act

  /** The state of one `act` call: the events sent so far and the keys marked down. */
  datatype Sending = Sending(events: seq<KeyEvent>, down: set<LinuxKey>)

  /** The send_key lambda: send one event and record its direction. */
  function SendKey(s: Sending, key: LinuxKey, down: bool): Sending
  {
    Sending(s.events + [KeyEvent(key, down)], if down then s.down + {key} else s.down - {key})
  }

  /** One step of send_keys: a key already down is released before it is pressed again. */
  function SendOne(s: Sending, k: KeyState): Sending
  {
    var s1 := if k.IsDown() && k.Key() in s.down then SendKey(s, k.Key(), false) else s;
    SendKey(s1, k.Key(), k.IsDown())
  }

  /** send_keys: the chord entries in order. */
  function SendKeys(s: Sending, keys: seq<KeyState>): Sending
    decreases |keys|
  {
    if keys == [] then s else SendOne(SendKeys(s, keys[..|keys| - 1]), keys[|keys| - 1])
  }

  /** One step of release_keys: release the key if it is marked down. */
  function ReleaseOne(s: Sending, k: KeyState): Sending
  {
    if k.Key() in s.down then SendKey(s, k.Key(), false) else s
  }

  /** release_keys: the chord entries from the last to the first. */
  function ReleaseKeys(s: Sending, keys: seq<KeyState>): Sending
    decreases |keys|
  {
    if keys == [] then s else ReleaseKeys(ReleaseOne(s, keys[|keys| - 1]), keys[..|keys| - 1])
  }

  /** The marking loop of a release without a release chord: downkeys[key] = is_down(). */
  function MarkKeys(down: set<LinuxKey>, keys: seq<KeyState>): set<LinuxKey>
    decreases |keys|
  {
    if keys == [] then down
    else
      var d := MarkKeys(down, keys[..|keys| - 1]);
      var k := keys[|keys| - 1];
      if k.IsDown() then d + {k.Key()} else d - {k.Key()}
  }

  /** The events KeyAction::act sends; every call starts from an all-up table. */
  function ActEvents(keys: seq<KeyState>, keysUp: seq<KeyState>, isDown: bool): seq<KeyEvent>
  {
    var start := Sending([], {});
    if isDown then
      var s := SendKeys(start, keys);
      (if keysUp != [] then ReleaseKeys(s, keys) else s).events
    else if keysUp == [] then
      ReleaseKeys(Sending([], MarkKeys({}, keys)), keys).events
    else
      ReleaseKeys(SendKeys(start, keysUp), keysUp).events
  }

  /** The send_keys lambda as a loop over the chord. */
  method SendKeysLoop(events0: seq<KeyEvent>, down0: set<LinuxKey>, keys: seq<KeyState>)
    returns (events: seq<KeyEvent>, down: set<LinuxKey>)
    ensures Sending(events, down) == SendKeys(Sending(events0, down0), keys)
  {
    events, down := events0, down0;
    for i := 0 to |keys|
      invariant Sending(events, down) == SendKeys(Sending(events0, down0), keys[..i])
    {
      assert keys[..i + 1][..i] == keys[..i];
      var key := keys[i];
      if key.IsDown() && key.Key() in down {
        events, down := events + [KeyEvent(key.Key(), false)], down - {key.Key()};
      }
      events := events + [KeyEvent(key.Key(), key.IsDown())];
      down := if key.IsDown() then down + {key.Key()} else down - {key.Key()};
    }
    assert keys[..|keys|] == keys;
  }

  /** The release_keys lambda as the loop from the last entry down to the first. */
  method ReleaseKeysLoop(events0: seq<KeyEvent>, down0: set<LinuxKey>, keys: seq<KeyState>)
    returns (events: seq<KeyEvent>, down: set<LinuxKey>)
    ensures Sending(events, down) == ReleaseKeys(Sending(events0, down0), keys)
  {
    events, down := events0, down0;
    var i := |keys|;
    assert keys[..i] == keys;
    while i > 0
      invariant 0 <= i <= |keys|
      invariant ReleaseKeys(Sending(events, down), keys[..i]) == ReleaseKeys(Sending(events0, down0), keys)
    {
      assert keys[..i][..i - 1] == keys[..i - 1];
      i := i - 1;
      if keys[i].Key() in down {
        events, down := events + [KeyEvent(keys[i].Key(), false)], down - {keys[i].Key()};
      }
    }
  }

  /** KeyAction::act. */
  method KeyActionAct(keys: seq<KeyState>, keysUp: seq<KeyState>, isDown: bool) returns (events: seq<KeyEvent>)
    ensures events == ActEvents(keys, keysUp, isDown)
  {
    var downkeys: set<LinuxKey> := {};
    events := [];
    if isDown {
      events, downkeys := SendKeysLoop(events, downkeys, keys);
      if keysUp != [] {
        events, downkeys := ReleaseKeysLoop(events, downkeys, keys);
      }
    } else if keysUp == [] {
      for i := 0 to |keys|
        invariant downkeys == MarkKeys({}, keys[..i])
      {
        assert keys[..i + 1][..i] == keys[..i];
        downkeys := if keys[i].IsDown() then downkeys + {keys[i].Key()} else downkeys - {keys[i].Key()};
      }
      assert keys[..|keys|] == keys;
      events, downkeys := ReleaseKeysLoop(events, downkeys, keys);
    } else {
      events, downkeys := SendKeysLoop(events, downkeys, keysUp);
      events, downkeys := ReleaseKeysLoop(events, downkeys, keysUp);
    }
  }

  /** What `act` of an action asks for: key events always, a command or a pipe write on press only. */
  function ActEffect(a: Action, isDown: bool): Effect
  {
    match a
    case KeyAction(keys, keysUp) => SendEvents(ActEvents(keys, keysUp, isDown))
    case CommandAction(cmd) => if isDown then Resubmit(cmd) else NoEffect
    case PipeOutAction(out) => if isDown then PipeWrite(out) else NoEffect
  }

  /** act of any action, as the effect it asks the device to carry out. */
  method Act(a: Action, isDown: bool) returns (e: Effect)
    ensures e == ActEffect(a, isDown)
  {
    match a
    case KeyAction(keys, keysUp) =>
      var events := KeyActionAct(keys, keysUp, isDown);
      e := SendEvents(events);
    case CommandAction(cmd) =>
      e := if isDown then Resubmit(cmd) else NoEffect;
    case PipeOutAction(out) =>
      e := if isDown then PipeWrite(out) else NoEffect;
  }

  // ------------------------------------------------- properties of act

  /** The key table after a run of events: each event records its direction. */
  function Replay(down: set<LinuxKey>, events: seq<KeyEvent>): set<LinuxKey>
    decreases |events|
  {
    if events == [] then down
    else
      var d := Replay(down, events[..|events| - 1]);
      var e := events[|events| - 1];
      if e.down then d + {e.code} else d - {e.code}
  }

  /** No event presses a key that the preceding events left down. */
  predicate NoRepress(down: set<LinuxKey>, events: seq<KeyEvent>)
    decreases |events|
  {
    events == [] ||
    (NoRepress(down, events[..|events| - 1]) &&
     (events[|events| - 1].down ==> events[|events| - 1].code !in Replay(down, events[..|events| - 1])))
  }

  function Codes(keys: seq<KeyState>): set<LinuxKey>
  {
    set k | k in keys :: k.Key()
  }

  function PressedCodes(keys: seq<KeyState>): seq<LinuxKey>
    decreases |keys|
  {
    if keys == [] then []
    else PressedCodes(keys[..|keys| - 1]) + (if keys[|keys| - 1].IsDown() then [keys[|keys| - 1].Key()] else [])
  }

  function DownCodes(events: seq<KeyEvent>): seq<LinuxKey>
    decreases |events|
  {
    if events == [] then []
    else DownCodes(events[..|events| - 1]) + (if events[|events| - 1].down then [events[|events| - 1].code] else [])
  }

  /** Appending one event extends the replayed table and the no-repress check by that event. */
  lemma ReplaySnoc(down: set<LinuxKey>, events: seq<KeyEvent>, e: KeyEvent)
    ensures Replay(down, events + [e]) == if e.down then Replay(down, events) + {e.code} else Replay(down, events) - {e.code}
    ensures NoRepress(down, events + [e]) == (NoRepress(down, events) && (e.down ==> e.code !in Replay(down, events)))
  {
    assert (events + [e])[..|events|] == events;
  }

  /** send_key keeps the table equal to the replay of the events, and presses only keys that are up. */
  lemma SendKeyTable(s: Sending, key: LinuxKey, down: bool)
    requires s.down == Replay({}, s.events) && NoRepress({}, s.events)
    requires down ==> key !in s.down
    ensures var t := SendKey(s, key, down);
      t.down == Replay({}, t.events) && NoRepress({}, t.events)
  {
    ReplaySnoc({}, s.events, KeyEvent(key, down));
  }

  predicate Extends(s: Sending, t: Sending)
  {
    |s.events| <= |t.events| && t.events[..|s.events|] == s.events
  }

  lemma {:induction false} SendKeysExtends(s: Sending, keys: seq<KeyState>)
    ensures Extends(s, SendKeys(s, keys))
    decreases |keys|
  {
    if keys != [] {
      SendKeysExtends(s, keys[..|keys| - 1]);
    }
  }

  lemma {:induction false} ReleaseKeysExtends(s: Sending, keys: seq<KeyState>)
    ensures Extends(s, ReleaseKeys(s, keys))
    decreases |keys|
  {
    if keys != [] {
      ReleaseKeysExtends(ReleaseOne(s, keys[|keys| - 1]), keys[..|keys| - 1]);
    }
  }

  /**
   * Every event send_keys emits records its direction in the table, and
   * no event presses a key that is still down: a key already down is
   * released immediately before it is pressed again.
   */
  lemma {:induction false} SendKeysTable(s: Sending, keys: seq<KeyState>)
    requires s.down == Replay({}, s.events) && NoRepress({}, s.events)
    ensures var t := SendKeys(s, keys);
      t.down == Replay({}, t.events) && NoRepress({}, t.events)
    decreases |keys|
  {
    if keys != [] {
      SendKeysTable(s, keys[..|keys| - 1]);
      var p := SendKeys(s, keys[..|keys| - 1]);
      var k := keys[|keys| - 1];
      if k.IsDown() && k.Key() in p.down {
        SendKeyTable(p, k.Key(), false);
        SendKeyTable(SendKey(p, k.Key(), false), k.Key(), true);
      } else {
        SendKeyTable(p, k.Key(), k.IsDown());
      }
    }
  }

  /** release_keys only releases, only keys of the chord that were down, each once, and leaves every chord key up. */
  lemma {:induction false} ReleaseKeysEffect(s: Sending, keys: seq<KeyState>)
    ensures Extends(s, ReleaseKeys(s, keys))
    ensures var t := ReleaseKeys(s, keys);
      var added := t.events[|s.events|..];
      t.down == s.down - Codes(keys) &&
      (forall i | 0 <= i < |added| :: !added[i].down && added[i].code in s.down && added[i].code in Codes(keys)) &&
      (forall i, j | 0 <= i < j < |added| :: added[i].code != added[j].code)
    decreases |keys|
  {
    ReleaseKeysExtends(s, keys);
    if keys != [] {
      var k := keys[|keys| - 1];
      var init := keys[..|keys| - 1];
      var s1 := ReleaseOne(s, k);
      ReleaseKeysEffect(s1, init);
      var t := ReleaseKeys(s1, init);
      assert keys == init + [k];
      assert Codes(keys) == Codes(init) + {k.Key()};
      if k.Key() in s.down {
        assert s1.events == s.events + [KeyEvent(k.Key(), false)];
        assert t.events[|s.events|..] == [KeyEvent(k.Key(), false)] + t.events[|s1.events|..];
      } else {
        assert s1 == s;
      }
    }
  }

  /** Every chord key that was down is released by release_keys. */
  lemma {:induction false} ReleaseKeysCovers(s: Sending, keys: seq<KeyState>)
    ensures Extends(s, ReleaseKeys(s, keys))
    ensures var added := ReleaseKeys(s, keys).events[|s.events|..];
      forall c | c in s.down && c in Codes(keys) :: exists i | 0 <= i < |added| :: added[i].code == c
    decreases |keys|
  {
    ReleaseKeysExtends(s, keys);
    if keys != [] {
      var k := keys[|keys| - 1];
      var init := keys[..|keys| - 1];
      var s1 := ReleaseOne(s, k);
      ReleaseKeysCovers(s1, init);
      ReleaseKeysExtends(s1, init);
      var t := ReleaseKeys(s1, init);
      assert ReleaseKeys(s, keys) == t;
      assert keys == init + [k];
      assert Codes(keys) == Codes(init) + {k.Key()};
      var added := t.events[|s.events|..];
      var added1 := t.events[|s1.events|..];
      if k.Key() in s.down {
        assert s1.events == s.events + [KeyEvent(k.Key(), false)];
        assert added == [KeyEvent(k.Key(), false)] + added1;
        forall c | c in s.down && c in Codes(keys) ensures exists i | 0 <= i < |added| :: added[i].code == c {
          if c == k.Key() {
            assert added[0].code == c;
          } else {
            var i :| 0 <= i < |added1| && added1[i].code == c;
            assert added[i + 1].code == c;
          }
        }
      } else {
        assert s1 == s;
      }
    }
  }

  /** The marking loop leaves exactly the chord's non-zero codes down: is_down() is code != 0. */
  lemma {:induction false} MarkKeysCodes(keys: seq<KeyState>)
    ensures MarkKeys({}, keys) == Codes(keys) - {0}
    decreases |keys|
  {
    if keys != [] {
      var init := keys[..|keys| - 1];
      MarkKeysCodes(init);
      assert keys == init + [keys[|keys| - 1]];
      assert Codes(keys) == Codes(init) + {keys[|keys| - 1].Key()};
    }
  }

  /** The index of the last chord entry with code c, or -1. */
  function LastEntry(keys: seq<KeyState>, c: LinuxKey): (r: int)
    ensures -1 <= r < |keys|
    ensures r >= 0 ==> keys[r].Key() == c && forall k | r < k < |keys| :: keys[k].Key() != c
    ensures r < 0 ==> forall k | 0 <= k < |keys| :: keys[k].Key() != c
    decreases |keys|
  {
    if keys == [] then -1
    else if keys[|keys| - 1].Key() == c then |keys| - 1
    else LastEntry(keys[..|keys| - 1], c)
  }

  /** release_keys releases the keys in reverse order of their last chord entry. */
  lemma {:induction false} ReleaseKeysOrder(s: Sending, keys: seq<KeyState>)
    ensures Extends(s, ReleaseKeys(s, keys))
    ensures var added := ReleaseKeys(s, keys).events[|s.events|..];
      forall i, j | 0 <= i < j < |added| :: LastEntry(keys, added[i].code) > LastEntry(keys, added[j].code)
    decreases |keys|
  {
    ReleaseKeysExtends(s, keys);
    if keys != [] {
      var k := keys[|keys| - 1];
      var init := keys[..|keys| - 1];
      var s1 := ReleaseOne(s, k);
      ReleaseKeysOrder(s1, init);
      ReleaseKeysEffect(s1, init);
      var t := ReleaseKeys(s1, init);
      assert ReleaseKeys(s, keys) == t;
      var added := t.events[|s.events|..];
      var added1 := t.events[|s1.events|..];
      forall i | 0 <= i < |added1| ensures LastEntry(keys, added1[i].code) == LastEntry(init, added1[i].code) < |init| {
        assert added1[i].code != k.Key();
      }
      if k.Key() in s.down {
        assert s1.events == s.events + [KeyEvent(k.Key(), false)];
        assert added == [KeyEvent(k.Key(), false)] + added1;
        assert LastEntry(keys, k.Key()) == |init|;
        forall i, j | 0 <= i < j < |added|
          ensures LastEntry(keys, added[i].code) > LastEntry(keys, added[j].code)
        {
          assert added[j] == added1[j - 1];
          if i > 0 {
            assert added[i] == added1[i - 1];
          }
        }
      } else {
        assert s1 == s;
      }
    }
  }

  /** Press without a release chord: only what send_keys emits, its presses exactly the pressed entries in order. */
  lemma DownCodesSnoc(events: seq<KeyEvent>, e: KeyEvent)
    ensures DownCodes(events + [e]) == DownCodes(events) + (if e.down then [e.code] else [])
  {
    assert (events + [e])[..|events|] == events;
  }

  /** One send_keys step adds exactly the key's press, if it is one, to the presses. */
  lemma DownCodesSendOne(p: Sending, k: KeyState)
    ensures DownCodes(SendOne(p, k).events) == DownCodes(p.events) + (if k.IsDown() then [k.Key()] else [])
  {
    var p1 := if k.IsDown() && k.Key() in p.down then SendKey(p, k.Key(), false) else p;
    if p1 != p {
      DownCodesSnoc(p.events, KeyEvent(k.Key(), false));
    }
    DownCodesSnoc(p1.events, KeyEvent(k.Key(), k.IsDown()));
  }

  lemma {:induction false} PressDownsAreChord(s: Sending, keys: seq<KeyState>)
    ensures DownCodes(SendKeys(s, keys).events) == DownCodes(s.events) + PressedCodes(keys)
    decreases |keys|
  {
    if keys != [] {
      var init := keys[..|keys| - 1];
      var k := keys[|keys| - 1];
      PressDownsAreChord(s, init);
      DownCodesSendOne(SendKeys(s, init), k);
      Append3(DownCodes(s.events), PressedCodes(init), if k.IsDown() then [k.Key()] else []);
    }
  }

  lemma {:induction false} SendKeysCodes(s: Sending, keys: seq<KeyState>)
    ensures Extends(s, SendKeys(s, keys))
    ensures forall i | |s.events| <= i < |SendKeys(s, keys).events| :: SendKeys(s, keys).events[i].code in Codes(keys)
    decreases |keys|
  {
    SendKeysExtends(s, keys);
    if keys != [] {
      var init := keys[..|keys| - 1];
      var k := keys[|keys| - 1];
      SendKeysCodes(s, init);
      assert keys == init + [k];
      assert Codes(keys) == Codes(init) + {k.Key()};
      var p := SendKeys(s, init);
      var t := SendOne(p, k);
      assert Extends(p, t);
      assert forall i | |p.events| <= i < |t.events| :: t.events[i].code == k.Key();
      forall i | |s.events| <= i < |t.events| ensures t.events[i].code in Codes(keys) {
        if i < |p.events| {
          assert t.events[i] == p.events[i];
          assert p.events[i].code in Codes(init);
        } else {
          assert k in keys;
        }
      }
    }
  }

  /**
   * The behaviour of KeyAction::act in its three cases:
   * a press with a release chord leaves no primary key down; a release
   * without one releases every non-zero chord key exactly once and nothing
   * else, in reverse order of each key's last entry; a release with one
   * touches only keys of the release chord.
   */
  lemma ActCases(keys: seq<KeyState>, keysUp: seq<KeyState>)
    ensures keysUp != [] ==>
      var s := SendKeys(Sending([], {}), keys);
      forall c | c in Codes(keys) :: c !in ReleaseKeys(s, keys).down
    ensures keysUp == [] ==> DownCodes(ActEvents(keys, keysUp, true)) == PressedCodes(keys)
    ensures keysUp == [] ==> ReleasesChord(keys, ActEvents(keys, keysUp, false))
    ensures keysUp != [] ==> var e := ActEvents(keys, keysUp, false);
      forall i | 0 <= i < |e| :: e[i].code in Codes(keysUp)
  {
    var start := Sending([], {});
    ReleaseKeysEffect(SendKeys(start, keys), keys);
    PressDownsAreChord(start, keys);
    ActReleaseNoChord(keys);
    var s := SendKeys(start, keysUp);
    SendKeysCodes(start, keysUp);
    ReleaseKeysEffect(s, keysUp);
    var t := ReleaseKeys(s, keysUp);
    forall i | 0 <= i < |t.events| ensures t.events[i].code in Codes(keysUp) {
      if i < |s.events| {
        assert t.events[i] == s.events[i];
        assert s.events[i].code in Codes(keysUp);
      } else {
        assert t.events[i] == t.events[|s.events|..][i - |s.events|];
      }
    }
  }

  /**
   * The events of a release without a release chord: ups only, each of a
   * non-zero chord key, every such key exactly once, in reverse order of
   * each key's last entry.
   */
  predicate ReleasesChord(keys: seq<KeyState>, e: seq<KeyEvent>)
  {
    (forall i | 0 <= i < |e| :: !e[i].down && e[i].code in Codes(keys) && e[i].code != 0) &&
    (forall i, j | 0 <= i < j < |e| :: e[i].code != e[j].code) &&
    (forall c | c in Codes(keys) && c != 0 :: exists i | 0 <= i < |e| :: e[i].code == c) &&
    (forall i, j | 0 <= i < j < |e| :: LastEntry(keys, e[i].code) > LastEntry(keys, e[j].code))
  }

  /** A release without a release chord marks the non-zero chord keys down and releases them all. */
  lemma ActReleaseNoChord(keys: seq<KeyState>)
    ensures ReleasesChord(keys, ActEvents(keys, [], false))
  {
    var s := Sending([], MarkKeys({}, keys));
    var r := ReleaseKeys(s, keys);
    ReleaseKeysEffect(s, keys);
    ReleaseKeysCovers(s, keys);
    ReleaseKeysOrder(s, keys);
    MarkKeysCodes(keys);
    assert r.events[0..] == r.events;
  }

  /** Every act call starts from an empty table, so the keys it presses are never pressed twice. */
  lemma ActNoRepress(keys: seq<KeyState>, keysUp: seq<KeyState>, isDown: bool)
    ensures isDown ==> NoRepress({}, SendKeys(Sending([], {}), keys).events)
    ensures !isDown && keysUp != [] ==> NoRepress({}, SendKeys(Sending([], {}), keysUp).events)
  {
    SendKeysTable(Sending([], {}), keys);
    SendKeysTable(Sending([], {}), keysUp);
  }

  /** The chords of the examples: KEY_A as a plain press, and KEY_A with KEY_B as release chord. */
  lemma ActExamples(a: LinuxKey, b: LinuxKey)
    requires a != 0 && b != 0 && a != b
    ensures ActEvents([KeyState(a, true)], [], true) == [KeyEvent(a, true)]
    ensures ActEvents([KeyState(a, true)], [], false) == [KeyEvent(a, false)]
    ensures ActEvents([KeyState(a, true)], [KeyState(b, true)], true) == [KeyEvent(a, true), KeyEvent(a, false)]
    ensures ActEvents([KeyState(a, true)], [KeyState(b, true)], false) == [KeyEvent(b, true), KeyEvent(b, false)]
    ensures ActEvents([KeyState(a, false)], [], true) == [KeyEvent(a, true)]
  {
    var start := Sending([], {});
    var one := [KeyState(a, true)];
    assert one[..0] == [];
    assert SendKeys(start, one[..0]) == start;
    var pressed := SendKeys(start, one);
    assert pressed == SendOne(start, KeyState(a, true));
    assert pressed == Sending([KeyEvent(a, true)], {a});
    assert ReleaseKeys(pressed, one) == Sending([KeyEvent(a, true), KeyEvent(a, false)], {});
    assert MarkKeys({}, one) == {a};
    assert ReleaseKeys(Sending([], {a}), one) == Sending([KeyEvent(a, false)], {});
    var up := [KeyState(b, true)];
    assert up[..0] == [];
    assert SendKeys(start, up[..0]) == start;
    var pressedUp := SendKeys(start, up);
    assert pressedUp == SendOne(start, KeyState(b, true));
    assert pressedUp == Sending([KeyEvent(b, true)], {b});
    assert ReleaseKeys(pressedUp, up) == Sending([KeyEvent(b, true), KeyEvent(b, false)], {});
    var neg := [KeyState(a, false)];
    assert neg[..0] == [];
    assert SendKeys(start, neg[..0]) == start;
    assert SendKeys(start, neg) == SendOne(start, KeyState(a, false));
    assert SendKeys(start, neg) == Sending([KeyEvent(a, true)], {a});
  }

  // ------------------------------------------------------------ factory

  /** MakeAction: an empty string throws; '>' and '!' select a pipe write or a command of the rest. */
  function MakeActionSpec(inputNameToKey: map<string, LinuxKey>, action: string): Result<Action>
  {
    if action == "" then Failure("empty action string")
    else if action[0] == '>' then Success(PipeOutAction(action[1..] + "\n"))
    else if action[0] == '!' then Success(CommandAction(action[1..]))
    else ParseKeyAction(inputNameToKey, action)
  }

  /** Device::MakeAction, building the action with its constructor. */
  method MakeAction(inputNameToKey: map<string, LinuxKey>, action: string) returns (r: Result<Action>)
    ensures r == MakeActionSpec(inputNameToKey, action)
  {
    if action == "" {
      return Failure("empty action string");
    }
    if action[0] == '>' {
      return Success(PipeOutAction(action[1..] + "\n"));
    } else if action[0] == '!' {
      return Success(CommandAction(action[1..]));
    }
    r := NewKeyAction(inputNameToKey, action);
  }

  /**
   * What a made action does: ">text" writes text plus a newline when
   * pressed, "!cmd" resubmits cmd when pressed, both do nothing on
   * release, and anything else is a key chord or a failure.
   */
  lemma MakeActionBehaviour(inputNameToKey: map<string, LinuxKey>, action: string)
    ensures action == "" ==> MakeActionSpec(inputNameToKey, action).Failure?
    ensures action != "" && action[0] == '>' ==>
      var a := MakeActionSpec(inputNameToKey, action).value;
      a.PipeOutAction? && a.out == action[1..] + "\n" && a.out[|a.out| - 1] == '\n'
    ensures action != "" && action[0] == '!' ==>
      MakeActionSpec(inputNameToKey, action) == Success(CommandAction(action[1..]))
    ensures action != "" && action[0] != '>' && action[0] != '!' ==>
      var r := MakeActionSpec(inputNameToKey, action);
      r.Success? ==> r.value.KeyAction?
  {
  }

  // ---------------------------------------------------------------- dump

  /** KeyAction::dump: the primary chord by Linux key name, "-" before entries that are not down. */
  function DumpKeyAction(inputKeyToName: map<LinuxKey, string>, keys: seq<KeyState>): string
  {
    " SEND KEYS: " + DumpKeys(inputKeyToName, keys)
  }

  function DumpKeys(inputKeyToName: map<LinuxKey, string>, keys: seq<KeyState>): string
    decreases |keys|
  {
    if keys == [] then ""
    else
      var entry := (if keys[|keys| - 1].IsDown() then "" else "-") + FindInputKeyName(inputKeyToName, keys[|keys| - 1].Key());
      if |keys| == 1 then entry else DumpKeys(inputKeyToName, keys[..|keys| - 1]) + " + " + entry
  }

  /** A "-" entry still dumps without its "-", since the direction is read through is_down. */
  lemma DumpKeyActionEntries(inputKeyToName: map<LinuxKey, string>, a: LinuxKey, b: LinuxKey)
    requires a != 0 && a in inputKeyToName && b in inputKeyToName
    ensures DumpKeyAction(inputKeyToName, [KeyState(a, false)]) == " SEND KEYS: " + inputKeyToName[a]
    ensures DumpKeyAction(inputKeyToName, [KeyState(a, true), KeyState(b, true)]) ==
      " SEND KEYS: " + inputKeyToName[a] + " + " + (if b == 0 then "-" else "") + inputKeyToName[b]
  {
    var two := [KeyState(a, true), KeyState(b, true)];
    assert two[..1] == [KeyState(a, true)];
    assert DumpKeys(inputKeyToName, two[..1]) == inputKeyToName[a];
    assert DumpKeys(inputKeyToName, two) ==
      DumpKeys(inputKeyToName, two[..1]) + " + " + ((if b == 0 then "-" else "") + inputKeyToName[b]);
  }

  /** CommandAction::dump. */
  function DumpCommand(cmd: string): string
    requires IsBytes(cmd)
  {
    "COMMAND : " + Format(cmd)
  }

  /** PipeOutAction::dump. */
  function DumpPipeOut(out: string): string
    requires IsBytes(out)
  {
    "WRITE PIPE : " + Format(out)
  }

  /** A pipe action's dump shows its text escaped, ending in the escaped newline its constructor added. */
  lemma DumpPipeOutShowsNewline(text: string)
    requires IsBytes(text)
    ensures IsBytes(text + "\n")
    ensures DumpPipeOut(text + "\n") == "WRITE PIPE : \"" + EscapeAll(text) + "\\n\""
    ensures Unescape(EscapeAll(text) + "\\n") == text + "\n"
  {
    var out := text + "\n";
    EscapeAllSnoc(text, '\n');
    EscapeRoundTrip(out);
    var e := EscapeAll(text);
    assert EscapeAll(out) == e + "\\n";
    Regroup("WRITE PIPE : ", "\"", e, "\\n", "\"");
    assert "WRITE PIPE : " + "\"" == "WRITE PIPE : \"";
    assert "\\n" + "\"" == "\\n\"";
  }

  lemma Regroup(p: string, o: string, e: string, n: string, c: string)
    ensures p + (o + (e + n) + c) == (p + o) + e + (n + c)
  {
  }
}
