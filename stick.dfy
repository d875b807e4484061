/**
 * The thumb stick: the Bounds/Coord templates of helper.hpp, StickZone
 * (StickZone.cpp) and the stick itself (g13_stick.cpp) with its five-mode
 * calibration state machine and its list of zones.
 *
 * Raw stick positions are bytes, so StickCoord and StickBounds are over
 * int; zone coordinates are the normalised doubles, modelled as real.
 * The floating-point normalisation of a raw position is a parameter.
 */
module Sticks {
  import opened Wrappers
  import opened Text
  import opened Keys
  import opened Actions

  // --------------------------------------------------------------- Bounds

  /** Coord<int>. */
  datatype StickCoord = StickCoord(x: int, y: int)

  /** Bounds<int>: a box given by its top-left and bottom-right corners. */
  datatype StickBounds = StickBounds(tl: StickCoord, br: StickCoord)
  {
    /** contains: inclusive on all four edges. */
    predicate Contains(p: StickCoord)
    {
      tl.x <= p.x && tl.y <= p.y && p.x <= br.x && p.y <= br.y
    }

    /** expand: each corner coordinate moves out just far enough to take p in. */
    function Expand(p: StickCoord): StickBounds
    {
      StickBounds(StickCoord(if p.x < tl.x then p.x else tl.x, if p.y < tl.y then p.y else tl.y),
                  StickCoord(if p.x > br.x then p.x else br.x, if p.y > br.y then p.y else br.y))
    }
  }

  /** After expand(p) the box contains p, whatever it was before. */
  lemma ExpandContains(b: StickBounds, p: StickCoord)
    ensures b.Expand(p).Contains(p)
  {
  }

  /** expand only grows the box. */
  lemma ExpandMonotone(b: StickBounds, p: StickCoord, q: StickCoord)
    ensures b.Contains(q) ==> b.Expand(p).Contains(q)
  {
  }

  /** expand keeps a box that already contains p. */
  lemma ExpandInside(b: StickBounds, p: StickCoord)
    requires b.Contains(p)
    ensures b.Expand(p) == b
  {
  }

  /** The box calibration starts from, (255,255)-(0,0), contains no byte position. */
  const INVERTED_BOUNDS := StickBounds(StickCoord(255, 255), StickCoord(0, 0))

  /** Expanding the inverted box by one byte position gives the one-point box at it. */
  lemma ExpandInverted(p: StickCoord)
    requires 0 <= p.x <= 255 && 0 <= p.y <= 255
    ensures INVERTED_BOUNDS.Expand(p) == StickBounds(p, p)
    ensures forall q :: INVERTED_BOUNDS.Expand(p).Contains(q) <==> q == p
  {
  }

  /** Coord<double>, the normalised position a zone is tested at. */
  datatype ZoneCoord = ZoneCoord(x: real, y: real)

  /** Bounds<double>. */
  datatype ZoneBounds = ZoneBounds(x1: real, y1: real, x2: real, y2: real)
  {
    predicate Contains(p: ZoneCoord)
    {
      x1 <= p.x && y1 <= p.y && p.x <= x2 && p.y <= y2
    }
  }

  // ------------------------------------------------------------ StickZone

  /** The state of a zone that test reads and writes. */
  datatype ZoneState = ZoneState(bounds: ZoneBounds, action: Option<Action>, active: bool)

  /**
   * test, on the zone's state: without an action nothing happens; inside
   * the bounds the zone is active and presses, every time; outside it
   * becomes inactive and releases only if it was active.
   */
  function TestZone(z: ZoneState, loc: ZoneCoord): (r: (ZoneState, seq<Effect>))
    ensures r.0.bounds == z.bounds && r.0.action == z.action && |r.1| <= 1
  {
    if z.action.None? then (z, [])
    else if z.bounds.Contains(loc) then (z.(active := true), [ActEffect(z.action.value, true)])
    else if z.active then (z.(active := false), [ActEffect(z.action.value, false)])
    else (z, [])
  }

  /** StickZone: a named region of the stick with the action it fires. */
  class StickZone {
    const name: string
    var bounds: ZoneBounds
    var action: Option<Action>
    var active: bool

    function State(): ZoneState
      reads this
    {
      ZoneState(bounds, action, active)
    }

    /** StickZone(stick, name, bounds, action): a new zone is inactive. */
    constructor(name: string, bounds: ZoneBounds, action: Option<Action>)
      ensures this.name == name && State() == ZoneState(bounds, action, false)
    {
      this.name := name;
      this.bounds := bounds;
      this.action := action;
      active := false;
    }

    /** test: update the active flag and return what the action is asked to do. */
    method Test(loc: ZoneCoord) returns (effects: seq<Effect>)
      modifies this
      ensures (State(), effects) == TestZone(old(State()), loc)
    {
      if action.None? {
        return [];
      }
      var priorActive := active;
      active := bounds.Contains(loc);
      if !active {
        if priorActive {
          var e := Act(action.value, false);
          effects := [e];
        } else {
          effects := [];
        }
      } else {
        var e := Act(action.value, true);
        effects := [e];
      }
    }

    /** set_bounds: only the bounds change. */
    method SetBounds(b: ZoneBounds)
      modifies this
      ensures State() == old(State()).(bounds := b)
    {
      bounds := b;
    }

    /** set_action: only the action changes. */
    method SetAction(a: Option<Action>)
      modifies this
      ensures State() == old(State()).(action := a)
    {
      action := a;
    }
  }

  /** operator==: zones are the same zone when their names are equal. */
  predicate SameZone(a: StickZone, b: StickZone)
  {
    a.name == b.name
  }

  /** The properties of one test call. */
  lemma TestZoneSpec(z: ZoneState, loc: ZoneCoord)
    ensures z.action.None? ==> TestZone(z, loc) == (z, [])
    ensures z.action.Some? ==> TestZone(z, loc).0 == z.(active := z.bounds.Contains(loc))
    ensures z.action.Some? && z.bounds.Contains(loc) ==> TestZone(z, loc).1 == [ActEffect(z.action.value, true)]
    ensures z.action.Some? && !z.bounds.Contains(loc) ==>
      TestZone(z, loc).1 == (if z.active then [ActEffect(z.action.value, false)] else [])
    ensures TestZone(z, loc).0.bounds == z.bounds && TestZone(z, loc).0.action == z.action
  {
  }

  /** Staying outside: a zone releases once on the way out and is silent afterwards. */
  lemma ReleaseOnce(z: ZoneState, loc1: ZoneCoord, loc2: ZoneCoord)
    requires z.action.Some? && z.active
    requires !z.bounds.Contains(loc1) && !z.bounds.Contains(loc2)
    ensures TestZone(z, loc1).1 == [ActEffect(z.action.value, false)]
    ensures TestZone(TestZone(z, loc1).0, loc2).1 == []
  {
  }

  // ---------------------------------------------------------------- Stick

  datatype StickMode = Absolute | Keys | CalibCenter | CalibBounds | CalibNorth

  predicate IsCalibration(m: StickMode)
  {
    m == CalibCenter || m == CalibBounds || m == CalibNorth
  }

  /** The zones of a list, as test sees them. */
  function States(zs: seq<StickZone>): (r: seq<ZoneState>)
    reads zs
    ensures |r| == |zs| && forall i | 0 <= i < |zs| :: r[i] == zs[i].State()
  {
    if zs == [] then [] else States(zs[..|zs| - 1]) + [zs[|zs| - 1].State()]
  }

  /** Testing every zone in list order: the new states and the effects in order. */
  function TestAll(zs: seq<ZoneState>, loc: ZoneCoord): (r: (seq<ZoneState>, seq<Effect>))
    ensures |r.0| == |zs|
  {
    if zs == [] then ([], [])
    else
      var front := TestAll(zs[..|zs| - 1], loc);
      var last := TestZone(zs[|zs| - 1], loc);
      (front.0 + [last.0], front.1 + last.1)
  }

  /** One more zone tested: its new state and effects come after those of the zones before it. */
  lemma TestAllStep(zs: seq<ZoneState>, i: nat, loc: ZoneCoord)
    requires i < |zs|
    ensures var t := TestAll(zs[..i], loc); var z := TestZone(zs[i], loc);
      TestAll(zs[..i + 1], loc) == (t.0 + [z.0], t.1 + z.1)
  {
    assert zs[..i + 1][..i] == zs[..i];
  }

  /** Zones with distinct names are distinct objects. */
  lemma OthersAreOtherObjects(zs: seq<StickZone>, i: nat)
    requires NamesDistinct(zs) && i < |zs|
    ensures forall k | 0 <= k < |zs| && k != i :: zs[k] != zs[i]
  {
  }

  /** The names of a zone list. */
  function Names(zs: seq<StickZone>): seq<string>
  {
    seq(|zs|, i requires 0 <= i < |zs| => zs[i].name)
  }

  predicate NamesDistinct(zs: seq<StickZone>)
  {
    forall i, j | 0 <= i < |zs| && 0 <= j < |zs| && i != j :: zs[i].name != zs[j].name
  }

  /** FilteredZoneNames: the matching zone names, in list order. */
  function FilterZones(zs: seq<StickZone>, matches: string -> bool): seq<string>
  {
    if zs == [] then []
    else
      var front := FilterZones(zs[..|zs| - 1], matches);
      if matches(zs[|zs| - 1].name) then front + [zs[|zs| - 1].name] else front
  }

  /** std::erase(m_zones, zone): every zone equal to (named like) the given one is removed. */
  function RemoveNamed(zs: seq<StickZone>, name: string): seq<StickZone>
  {
    if zs == [] then []
    else
      var front := RemoveNamed(zs[..|zs| - 1], name);
      if zs[|zs| - 1].name == name then front else front + [zs[|zs| - 1]]
  }

  /** The index of the first zone called name, if any. */
  function FirstNamed(zs: seq<StickZone>, name: string): (r: Option<nat>)
    ensures r.Some? ==> (r.value < |zs| && zs[r.value].name == name &&
                         forall k | 0 <= k < r.value :: zs[k].name != name)
    ensures r.None? ==> forall k | 0 <= k < |zs| :: zs[k].name != name
  {
    if zs == [] then None
    else if zs[0].name == name then Some(0)
    else match FirstNamed(zs[1..], name)
      case None => None
      case Some(k) => Some(k + 1)
  }

  /** The listed names are exactly the matching ones, each once when names are distinct. */
  lemma {:induction false} FilterZonesSpec(zs: seq<StickZone>, matches: string -> bool)
    ensures forall n :: n in FilterZones(zs, matches) <==> n in Names(zs) && matches(n)
    ensures |FilterZones(zs, matches)| <= |zs|
  {
    if zs != [] {
      var front := zs[..|zs| - 1];
      FilterZonesSpec(front, matches);
      assert Names(zs) == Names(front) + [zs[|zs| - 1].name];
    }
  }

  /** The matching names come in list order: each one's zone lies before the next one's. */
  lemma {:induction false} FilterZonesOrder(zs: seq<StickZone>, matches: string -> bool)
    requires NamesDistinct(zs)
    ensures forall a | 0 <= a < |FilterZones(zs, matches)| :: FirstNamed(zs, FilterZones(zs, matches)[a]).Some?
    ensures forall a, b | 0 <= a < b < |FilterZones(zs, matches)| ::
      FirstNamed(zs, FilterZones(zs, matches)[a]).value < FirstNamed(zs, FilterZones(zs, matches)[b]).value
  {
    if zs != [] {
      var front := zs[..|zs| - 1];
      var last := |zs| - 1;
      assert NamesDistinct(front);
      FilterZonesOrder(front, matches);
      FilterZonesSpec(front, matches);
      var f := FilterZones(front, matches);
      var r := FilterZones(zs, matches);
      forall a | 0 <= a < |f| ensures FirstNamed(zs, f[a]) == FirstNamed(front, f[a]) {
        FirstNamedFront(zs, f[a]);
      }
      if matches(zs[last].name) {
        assert r == f + [zs[last].name];
        FirstNamedOfIndex(zs, last);
        forall a | 0 <= a < |f| ensures FirstNamed(front, f[a]).value < last {
        }
        forall a | 0 <= a < |r| ensures FirstNamed(zs, r[a]).Some? {
          if a < |f| {
            assert r[a] == f[a];
          }
        }
        forall a, b | 0 <= a < b < |r|
          ensures FirstNamed(zs, r[a]).value < FirstNamed(zs, r[b]).value
        {
          assert r[a] == f[a];
          if b < |f| {
            assert r[b] == f[b];
          }
        }
      } else {
        assert r == f;
      }
    }
  }

  /** A name found before the last zone is found at the same index in the whole list. */
  lemma FirstNamedFront(zs: seq<StickZone>, name: string)
    requires zs != [] && FirstNamed(zs[..|zs| - 1], name).Some?
    ensures FirstNamed(zs, name) == FirstNamed(zs[..|zs| - 1], name)
  {
    var front := zs[..|zs| - 1];
    var j := FirstNamed(front, name).value;
    assert front[j] == zs[j];
    var r := FirstNamed(zs, name);
    assert r.Some? && r.value <= j;
    assert forall k | 0 <= k < j :: front[k] == zs[k];
  }

  /** With distinct names, a zone's own name finds that zone. */
  lemma FirstNamedOfIndex(zs: seq<StickZone>, i: nat)
    requires NamesDistinct(zs) && i < |zs|
    ensures FirstNamed(zs, zs[i].name) == Some(i)
  {
  }

  /** RemoveZone keeps every other zone, in order, and no zone of that name. */
  lemma {:induction false} RemoveNamedMembers(zs: seq<StickZone>, name: string)
    ensures forall k | 0 <= k < |RemoveNamed(zs, name)| ::
      RemoveNamed(zs, name)[k] in zs && RemoveNamed(zs, name)[k].name != name
    ensures forall k | 0 <= k < |zs| && zs[k].name != name :: zs[k] in RemoveNamed(zs, name)
    ensures |RemoveNamed(zs, name)| <= |zs|
  {
    if zs != [] {
      var front := zs[..|zs| - 1];
      RemoveNamedMembers(front, name);
      assert zs == front + [zs[|zs| - 1]];
    }
  }

  /** Removing an absent name changes nothing. */
  lemma {:induction false} RemoveNamedAbsent(zs: seq<StickZone>, name: string)
    requires forall k | 0 <= k < |zs| :: zs[k].name != name
    ensures RemoveNamed(zs, name) == zs
  {
    if zs != [] {
      var front := zs[..|zs| - 1];
      RemoveNamedAbsent(front, name);
      assert zs == front + [zs[|zs| - 1]];
    }
  }

  /** Removing zones keeps the remaining names distinct. */
  lemma {:induction false} RemoveNamedDistinct(zs: seq<StickZone>, name: string)
    requires NamesDistinct(zs)
    ensures NamesDistinct(RemoveNamed(zs, name))
  {
    if zs != [] {
      var front := zs[..|zs| - 1];
      var last := zs[|zs| - 1];
      assert NamesDistinct(front);
      RemoveNamedDistinct(front, name);
      RemoveNamedMembers(front, name);
      var rf := RemoveNamed(front, name);
      if last.name != name {
        assert forall z | z in front :: z.name != last.name;
        assert forall k | 0 <= k < |rf| :: rf[k] in front;
        assert RemoveNamed(zs, name) == rf + [last];
      }
    }
  }

  /** The whole of the states and effects of testing every zone. */
  lemma {:induction false} TestAllSpec(zs: seq<ZoneState>, loc: ZoneCoord)
    ensures forall i | 0 <= i < |zs| :: TestAll(zs, loc).0[i] == TestZone(zs[i], loc).0
  {
    if zs != [] {
      TestAllSpec(zs[..|zs| - 1], loc);
    }
  }

  /** What ParseJoystick hands on to the device: absolute-axis values or zone effects. */
  datatype StickOutput = AbsoluteAxes(x: int, y: int) | ZoneEffects(effects: seq<Effect>) | Calibrated


  /** The calibration state of the stick and its mode. */
  datatype StickSettings = StickSettings(bounds: StickBounds, center: StickCoord, north: StickCoord,
                                         current: StickCoord, mode: StickMode)

  /** The four zones the stick starts with, by direction: the rectangle each covers. */
  const DIRECTIONS: seq<string> := ["UP", "DOWN", "LEFT", "RIGHT"]
  const DIRECTION_BOUNDS: seq<ZoneBounds> := [ZoneBounds(0.0, 0.0, 1.0, 0.3), ZoneBounds(0.0, 0.7, 1.0, 1.0),
                                              ZoneBounds(0.0, 0.0, 0.3, 1.0), ZoneBounds(0.7, 0.0, 1.0, 1.0)]

  /** A direction the Linux key table names with a real key code. */
  predicate KnownDirection(inputNameToKey: map<string, LinuxKey>, dir: string)
  {
    dir in inputNameToKey && inputNameToKey[dir] != BAD_KEY_VALUE
  }

  /** The action of an initial zone: the single key KEY_<dir>, pressed, with no release chord. */
  function DirectionAction(inputNameToKey: map<string, LinuxKey>, dir: string): Action
    requires KnownDirection(inputNameToKey, dir)
  {
    KeyAction([KeyState(inputNameToKey[dir], true)], [])
  }

  /** "KEY_<dir>" parses to the one-key chord of dir when dir holds no space or '+'. */
  lemma DirectionActionParses(inputNameToKey: map<string, LinuxKey>, dir: string)
    requires KnownDirection(inputNameToKey, dir)
    requires forall j | 0 <= j < |dir| :: dir[j] != ' ' && dir[j] != '+'
    ensures ParseKeyAction(inputNameToKey, "KEY_" + dir) == Success(DirectionAction(inputNameToKey, dir))
  {
    var s := "KEY_" + dir;
    assert forall j | 0 <= j < |s| :: s[j] != ' ' && s[j] != '+';
    assert FirstOf(s, " ", 0) == |s|;
    assert Split(s, " ", EmptiesOk) == [s];
    assert FirstOf(s, "+", 0) == |s|;
    assert Split(s, "+", EmptiesOk) == [s];
    assert s[..1] == "K" && s[..4] == "KEY_" && s[4..] == dir;
    assert FindInputKeyValue(inputNameToKey, s, true) == KeyState(inputNameToKey[dir], true);
    var one: seq<string> := [s];
    assert one[..0] == [];
    assert ScanKeys(inputNameToKey, one[..0]) == Success([]);
    assert one[|one| - 1] == s && one[..|one| - 1] == one[..0];
    assert ScanKeys(inputNameToKey, one) == Success([] + [KeyState(inputNameToKey[dir], true)]);
    assert [] + [KeyState(inputNameToKey[dir], true)] == [KeyState(inputNameToKey[dir], true)];
  }

  /** G13_Stick: the zones in list order and the calibration state machine. */
  class Stick {
    var zones: seq<StickZone>
    var bounds: StickBounds
    var center: StickCoord
    var north: StickCoord
    var current: StickCoord
    var mode: StickMode

    /** Zone names are distinct: zone(name, true) only adds a name that is absent. */
    predicate Valid()
      reads this
    {
      NamesDistinct(zones)
    }

    function Settings(): StickSettings
      reads this
    {
      StickSettings(bounds, center, north, current, mode)
    }

    /** add_zone: a zone STICK_<dir> over the given rectangle, bound to the key KEY_<dir>. */
    static method AddZone(inputNameToKey: map<string, LinuxKey>, dir: string, b: ZoneBounds) returns (z: StickZone)
      requires KnownDirection(inputNameToKey, dir)
      requires forall j | 0 <= j < |dir| :: dir[j] != ' ' && dir[j] != '+'
      ensures fresh(z) && z.name == "STICK_" + dir
      ensures z.State() == ZoneState(b, Some(DirectionAction(inputNameToKey, dir)), false)
    {
      DirectionActionParses(inputNameToKey, dir);
      var a := NewKeyAction(inputNameToKey, "KEY_" + dir);
      z := new StickZone("STICK_" + dir, b, Some(a.value));
    }

    /** G13_Stick(keypad): full bounds, centred, mode KEYS, and the four direction zones. */
    constructor(inputNameToKey: map<string, LinuxKey>)
      requires forall d | d in DIRECTIONS :: KnownDirection(inputNameToKey, d)
      ensures Settings() == StickSettings(StickBounds(StickCoord(0, 0), StickCoord(255, 255)),
                                          StickCoord(127, 127), StickCoord(127, 0), StickCoord(0, 0), Keys)
      ensures |zones| == 4 && Valid()
      ensures forall k | 0 <= k < 4 ::
                (fresh(zones[k]) && zones[k].name == "STICK_" + DIRECTIONS[k] &&
                 zones[k].State() == ZoneState(DIRECTION_BOUNDS[k], Some(DirectionAction(inputNameToKey, DIRECTIONS[k])), false))
    {
      assert DIRECTIONS[0] in DIRECTIONS && DIRECTIONS[1] in DIRECTIONS;
      assert DIRECTIONS[2] in DIRECTIONS && DIRECTIONS[3] in DIRECTIONS;
      var up := AddZone(inputNameToKey, "UP", DIRECTION_BOUNDS[0]);
      var down := AddZone(inputNameToKey, "DOWN", DIRECTION_BOUNDS[1]);
      var left := AddZone(inputNameToKey, "LEFT", DIRECTION_BOUNDS[2]);
      var right := AddZone(inputNameToKey, "RIGHT", DIRECTION_BOUNDS[3]);
      zones := [up, down, left, right];
      bounds := StickBounds(StickCoord(0, 0), StickCoord(255, 255));
      center := StickCoord(127, 127);
      north := StickCoord(127, 0);
      current := StickCoord(0, 0);
      mode := Keys;
      assert up.name[6] == 'U' && down.name[6] == 'D' && left.name[6] == 'L' && right.name[6] == 'R';
    }

    /**
     * zone(name, create): the first zone called name; when there is none,
     * a new unbound zero-area zone of that name appended to the list if
     * create is set, and null otherwise.
     */
    method Zone(name: string, create: bool) returns (z: StickZone?)
      requires Valid()
      modifies this
      ensures Valid() && Settings() == old(Settings())
      ensures old(FirstNamed(zones, name)).Some? ==>
        zones == old(zones) && z == zones[old(FirstNamed(zones, name)).value]
      ensures old(FirstNamed(zones, name)).None? && create ==>
        z != null && fresh(z) && zones == old(zones) + [z] && z.name == name &&
        z.State() == ZoneState(ZoneBounds(0.0, 0.0, 0.0, 0.0), None, false)
      ensures old(FirstNamed(zones, name)).None? && !create ==> z == null && zones == old(zones)
    {
      var i := 0;
      while i < |zones|
        invariant 0 <= i <= |zones|
        invariant forall k | 0 <= k < i :: zones[k].name != name
      {
        if zones[i].name == name {
          return zones[i];
        }
        i := i + 1;
      }
      if create {
        z := new StickZone(name, ZoneBounds(0.0, 0.0, 0.0, 0.0), None);
        zones := zones + [z];
        return z;
      }
      return null;
    }

    /** FilteredZoneNames: the names of the zones that match, in list order. */
    function FilteredZoneNames(matches: string -> bool): (r: seq<string>)
      reads this
      ensures forall n :: n in r <==> n in Names(zones) && matches(n)
      ensures NamesDistinct(zones) ==> forall a, b | 0 <= a < b < |r| ::
        FirstNamed(zones, r[a]).Some? && FirstNamed(zones, r[b]).Some? &&
        FirstNamed(zones, r[a]).value < FirstNamed(zones, r[b]).value
    {
      FilterZonesSpec(zones, matches);
      if NamesDistinct(zones) then
        FilterZonesOrder(zones, matches);
        FilterZones(zones, matches)
      else
        FilterZones(zones, matches)
    }

    /** RecalcCalibrated: does nothing. */
    static method RecalcCalibrated()
    {
    }

    /**
     * set_mode: the current mode is a complete no-op; entering CALIB_BOUNDS
     * inverts the bounds so the first sample sets them; nothing else changes.
     */
    method SetMode(m: StickMode)
      modifies this
      ensures zones == old(zones)
      ensures m == old(mode) ==> Settings() == old(Settings())
      ensures m != old(mode) ==>
        Settings() == old(Settings()).(mode := m, bounds := if m == CalibBounds then INVERTED_BOUNDS else old(bounds))
    {
      if m == mode {
        return;
      }
      if IsCalibration(mode) {
        RecalcCalibrated();
      }
      mode := m;
      match mode
      case CalibBounds =>
        bounds := StickBounds(StickCoord(255, 255), StickCoord(0, 0));
      case _ =>
    }

    /** RemoveZone: erase every zone named like the given one, keeping the order of the rest. */
    method RemoveZone(zone: StickZone)
      requires Valid()
      modifies this
      ensures zones == RemoveNamed(old(zones), zone.name) && Valid()
      ensures Settings() == old(Settings())
    {
      var kept: seq<StickZone> := [];
      for i := 0 to |zones|
        invariant kept == RemoveNamed(zones[..i], zone.name)
      {
        assert zones[..i + 1][..i] == zones[..i];
        if zones[i].name != zone.name {
          kept := kept + [zones[i]];
        }
      }
      assert zones[..|zones|] == zones;
      RemoveNamedDistinct(zones, zone.name);
      zones := kept;
    }

    /**
     * ParseJoystick: record the raw position from report bytes 1 and 2; a
     * calibration mode updates its target and stops; ABSOLUTE hands on the
     * raw axes; KEYS tests every zone in list order at the normalised
     * position and hands on what their actions ask for.
     */
    method ParseJoystick(report: seq<bv8>, normalize: (StickBounds, StickCoord, StickCoord) -> ZoneCoord)
      returns (out: StickOutput)
      requires |report| >= 3 && Valid()
      modifies this, zones
      ensures zones == old(zones) && Valid()
      ensures current == StickCoord(report[1] as int, report[2] as int)
      ensures old(mode) == CalibCenter ==> Settings() == old(Settings()).(current := current, center := current)
      ensures old(mode) == CalibNorth ==> Settings() == old(Settings()).(current := current, north := current)
      ensures old(mode) == CalibBounds ==> Settings() == old(Settings()).(current := current, bounds := old(bounds).Expand(current))
      ensures IsCalibration(old(mode)) ==> out == Calibrated && States(zones) == old(States(zones))
      ensures !IsCalibration(old(mode)) ==> Settings() == old(Settings()).(current := current)
      ensures old(mode) == Absolute ==> out == AbsoluteAxes(current.x, current.y) && States(zones) == old(States(zones))
      ensures old(mode) == Keys ==>
        var r := TestAll(old(States(zones)), normalize(bounds, center, current));
        States(zones) == r.0 && out == ZoneEffects(r.1)
    {
      if mode == Keys {
        out := MoveInKeys(report, normalize);
        return;
      }
      current := StickCoord(report[1] as int, report[2] as int);
      match mode {
        case CalibCenter =>
          center := current;
          return Calibrated;
        case CalibNorth =>
          north := current;
          return Calibrated;
        case CalibBounds =>
          bounds := bounds.Expand(current);
          return Calibrated;
        case Absolute =>
          return AbsoluteAxes(current.x, current.y);
      }
    }

    /** ParseJoystick in KEYS mode: the zones judge the normalized position. */
    method MoveInKeys(report: seq<bv8>, normalize: (StickBounds, StickCoord, StickCoord) -> ZoneCoord)
      returns (out: StickOutput)
      requires |report| >= 3 && Valid() && mode == Keys
      modifies this, zones
      ensures zones == old(zones) && Valid()
      ensures Settings() == old(Settings()).(current := StickCoord(report[1] as int, report[2] as int))
      ensures var r := TestAll(old(States(zones)), normalize(bounds, center, current));
        States(zones) == r.0 && out == ZoneEffects(r.1)
    {
      var c := StickCoord(report[1] as int, report[2] as int);
      var effects := TestZones(normalize(bounds, center, c));
      SetCurrent(c);
      out := ZoneEffects(effects);
    }

    /** The raw position of the last report. */
    method SetCurrent(c: StickCoord)
      modifies this`current
      ensures Settings() == old(Settings()).(current := c)
    {
      current := c;
    }

    /** The KEYS branch of ParseJoystick: test every zone in list order. */
    method TestZones(loc: ZoneCoord) returns (effects: seq<Effect>)
      requires Valid()
      modifies zones
      ensures var r := TestAll(old(States(zones)), loc); States(zones) == r.0 && effects == r.1
    {
      ghost var s0 := States(zones);
      effects := TestEach(zones, loc);
      TestAllSpec(s0, loc);
    }
  }

  /** The loop of the KEYS branch: each zone is tested once, in list order. */
  method TestEach(zs: seq<StickZone>, loc: ZoneCoord) returns (effects: seq<Effect>)
    requires NamesDistinct(zs)
    modifies zs
    ensures forall k | 0 <= k < |zs| :: zs[k].State() == TestZone(old(zs[k].State()), loc).0
    ensures effects == TestAll(old(States(zs)), loc).1
  {
    ghost var s0 := States(zs);
    effects := [];
    var i := 0;
    while i < |zs|
      invariant 0 <= i <= |zs|
      invariant forall k | 0 <= k < i :: zs[k].State() == TestZone(s0[k], loc).0
      invariant forall k | i <= k < |zs| :: zs[k].State() == s0[k]
      invariant effects == TestAll(s0[..i], loc).1
    {
      TestAllStep(s0, i, loc);
      OthersAreOtherObjects(zs, i);
      var e := zs[i].Test(loc);
      effects := effects + e;
      i := i + 1;
    }
    assert s0[..i] == s0;
  }
}
