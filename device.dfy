/**
 * The G13 device: the key-state array, the profile map and the current
 * profile, the fonts, the screen and the stick, the command interpreter
 * that drives them, and the handling of the 8-byte USB report and of the
 * input pipe.
 *
 * Everything the device sends out is recorded in append-only sequences:
 * the input events for the uinput device, the text written to the output
 * pipe, the log, and the LED and backlight control transfers.  The
 * collaborators the device calls but that are not part of the model (the
 * file system, path normalisation, std::regex, strtol, strtod and the
 * floating-point stick normalisation) are function-valued constants.
 */
module Devices {
  import opened Wrappers
  import opened Text
  import opened Keys
  import opened Actions
  import opened Glob
  import opened Profiles
  import opened Sticks
  import opened Screens

  // -------------------------------------------------------- input events

  const EV_SYN := 0
  const EV_KEY := 1
  const EV_ABS := 3
  const SYN_REPORT := 0
  const ABS_X := 0
  const ABS_Y := 1

  /** The size of a key report. */
  const REPORT_SIZE := 8

  /** sizeof(buffer) inside ProcessBuffer, where buffer is a char*: 8 on a 64-bit build. */
  const POINTER_SIZE := 8

  /** One input_event written to the uinput device (the timestamp is not modelled). */
  datatype InputEvent = InputEvent(kind: int, code: int, value: int)

  /** A USB control transfer: the mode LEDs or the key backlight colour, as the bytes sent. */
  datatype ControlWrite = ModeLeds(leds: int) | KeyColor(red: int, green: int, blue: int)

  /** SendEvent(EV_KEY, code, down) for one key event of an action. */
  function KeyInput(e: KeyEvent): InputEvent
  {
    InputEvent(EV_KEY, e.code, if e.down then 1 else 0)
  }

  function KeyInputs(es: seq<KeyEvent>): (r: seq<InputEvent>)
    ensures |r| == |es| && forall i | 0 <= i < |es| :: r[i] == KeyInput(es[i])
  {
    seq(|es|, i requires 0 <= i < |es| => KeyInput(es[i]))
  }

  // ------------------------------------------------------- C arithmetic

  /** static_cast<int> of a long: the low 32 bits, read as two's complement. */
  function ToInt32(x: int): (r: int)
    ensures -0x8000_0000 <= r < 0x8000_0000
    ensures (x - r) % 0x1_0000_0000 == 0
    ensures -0x8000_0000 <= x < 0x8000_0000 ==> r == x
  {
    (x + 0x8000_0000) % 0x1_0000_0000 - 0x8000_0000
  }

  /** The conversion of an int to unsigned char when it is stored in a USB data byte. */
  function ToByte(x: int): (r: int)
    ensures 0 <= r < 256 && (x - r) % 256 == 0
  {
    x % 256
  }

  // ------------------------------------------------------ message helpers

  /** One message per name: pre + name + post, in the order of the names. */
  function Messages(pre: string, names: seq<string>, post: string): (r: seq<string>)
    ensures |r| == |names| && forall i | 0 <= i < |names| :: r[i] == pre + names[i] + post
  {
    seq(|names|, i requires 0 <= i < |names| => pre + names[i] + post)
  }

  lemma MessagesSnoc(pre: string, names: seq<string>, i: nat, post: string)
    requires i < |names|
    ensures Messages(pre, names[..i + 1], post) == Messages(pre, names[..i], post) + [pre + names[i] + post]
  {
  }

  /** What Command logs before it runs a command when it was given an info tag. */
  function Announced(mem: string, pos: int, info: Option<string>): seq<string>
  {
    if info.Some? then [info.value + ": " + CString(mem, LeftTrim(mem, pos))] else []
  }

  /** The info tag of a load nested `depth` files deep: one '>' per level, plus one. */
  function LoadInfo(depth: nat): (r: string)
    ensures |r| == depth + 1 && forall i | 0 <= i < |r| :: r[i] == '>'
  {
    seq(depth + 1, _ => '>')
  }

  /** The verbs of the command table. */
  const COMMANDS: set<string> := {"out", "pos", "bind", "profile", "font", "mod", "textmode", "rgb",
                                  "stickmode", "stickzone", "dump", "log_level", "refresh", "clear",
                                  "delete", "load"}

  // ----------------------------------------------------------- stickmode

  const STICK_MODE_NAMES: seq<string> := ["ABSOLUTE", "KEYS", "CALCENTER", "CALBOUNDS", "CALNORTH"]
  const STICK_MODES: seq<StickMode> := [Absolute, Keys, CalibCenter, CalibBounds, CalibNorth]

  /** The first position of name in names. */
  function IndexOf(names: seq<string>, name: string): (r: Option<nat>)
    ensures r.Some? ==> r.value < |names| && names[r.value] == name &&
                        forall k | 0 <= k < r.value :: names[k] != name
    ensures r.None? ==> forall k | 0 <= k < |names| :: names[k] != name
  {
    if names == [] then None
    else if names[0] == name then Some(0)
    else match IndexOf(names[1..], name)
      case Some(k) => Some(k + 1)
      case None => None
  }

  /** The stickmode table: the mode whose name is given, the index in the table being the mode. */
  function StickModeByName(name: string): (r: Option<StickMode>)
    ensures r.None? <==> name !in STICK_MODE_NAMES
    ensures forall i | 0 <= i < |STICK_MODE_NAMES| :: (name == STICK_MODE_NAMES[i] <==> r == Some(STICK_MODES[i]))
  {
    match IndexOf(STICK_MODE_NAMES, name)
    case Some(i) => Some(STICK_MODES[i])
    case None => None
  }

  // ---------------------------------------------------------------- bind

  /** The key (or zone) name and the action text of a bind command. */
  datatype BindArgs = BindArgs(keyname: string, action: string)

  /**
   * The bind handler's arguments: the first token names the key; when the
   * next token starts with '!' or '>', the action is the left-trimmed rest
   * of the line verbatim; otherwise it is that token, followed by one space
   * and the token after it when there is one.
   */
  function BindArguments(mem: string, pos: int): BindArgs
  {
    var key := ExtractToken(mem, pos);
    var raw := LeftTrim(mem, key.next);
    var first := ExtractToken(mem, key.next);
    var second := ExtractToken(mem, first.next);
    var action :=
      if first.token != "" && (first.token[0] == '!' || first.token[0] == '>') then CString(mem, raw)
      else if second.token != "" then first.token + " " + second.token
      else first.token;
    BindArgs(key.token, action)
  }

  /** The token of n ordinary bytes at pos, and where the cursor goes after it. */
  lemma {:induction false} TokenOf(mem: string, pos: nat, n: nat)
    requires pos + n <= |mem|
    requires forall k | pos <= k < pos + n :: mem[k] != ' ' && mem[k] != '#' && mem[k] != '\0'
    requires At(mem, pos + n) in " #\0"
    ensures ExtractToken(mem, pos) == Extracted(mem[pos..pos + n], if At(mem, pos + n) == '\0' then pos - 1 else pos + n + 1)
    decreases n
  {
    if n > 0 {
      TokenOf(mem, pos + 1, n - 1);
    }
  }

  /**
   * The three ways bind recombines its arguments.  A '!' or '>' action is
   * the rest of the line starting at that token (left_trim skips nothing
   * there), so it begins with the token itself.
   */
  lemma BindArgumentCases(mem: string, pos: int, key: Extracted, first: Extracted, second: Extracted)
    requires key == ExtractToken(mem, pos) && first == ExtractToken(mem, key.next) && second == ExtractToken(mem, first.next)
    ensures var b := BindArguments(mem, pos);
      b.keyname == key.token &&
      (first.token != "" && (first.token[0] == '!' || first.token[0] == '>') ==>
         b.action == CString(mem, key.next) && |first.token| <= |b.action| && b.action[..|first.token|] == first.token) &&
      (first.token != "" && first.token[0] != '!' && first.token[0] != '>' && second.token != "" ==>
         b.action == first.token + " " + second.token) &&
      (first.token != "" && first.token[0] != '!' && first.token[0] != '>' && second.token == "" ==>
         b.action == first.token) &&
      (first.token == "" ==> b.action == (if second.token != "" then " " + second.token else ""))
  {
    if first.token != "" && (first.token[0] == '!' || first.token[0] == '>') {
      RawActionStart(mem, key.next, first);
    }
  }

  /** A token that starts a raw action starts right at the cursor, which left_trim leaves in place. */
  lemma RawActionStart(mem: string, p: int, first: Extracted)
    requires first == ExtractToken(mem, p) && first.token != "" && (first.token[0] == '!' || first.token[0] == '>')
    ensures LeftTrim(mem, p) == p
    ensures |first.token| <= |CString(mem, p)| && CString(mem, p)[..|first.token|] == first.token
  {
    ExtractTokenWord(mem, p);
    assert At(mem, p) == first.token[0];
  }

  /** A single action token is the action. */
  lemma BindOneToken()
    ensures BindArguments("bind G1 A", 5) == BindArgs("G1", "A")
  {
    var m := "bind G1 A";
    TokenOf(m, 5, 2);
    assert m[5..7] == "G1";
    TokenOf(m, 8, 1);
    assert m[8..9] == "A";
    TokenOf(m, 7, 0);
    assert m[7..7] == "";
    BindArgumentCases(m, 5, Extracted("G1", 8), Extracted("A", 7), Extracted("", 8));
  }

  /** A second token is joined to the first with one space. */
  lemma BindTwoTokens()
    ensures BindArguments("bind G2 A B", 5) == BindArgs("G2", "A B")
  {
    var m := "bind G2 A B";
    TokenOf(m, 5, 2);
    assert m[5..7] == "G2";
    TokenOf(m, 8, 1);
    assert m[8..9] == "A";
    TokenOf(m, 10, 1);
    assert m[10..11] == "B";
    BindArgumentCases(m, 5, Extracted("G2", 8), Extracted("A", 10), Extracted("B", 9));
  }

  /** The tokens of "bind G3 !a  b" after the verb. */
  lemma VerbatimTokens()
    ensures ExtractToken("bind G3 !a  b", 5) == Extracted("G3", 8)
    ensures ExtractToken("bind G3 !a  b", 8) == Extracted("!a", 11)
  {
    var m := "bind G3 !a  b";
    TokenOf(m, 5, 2);
    assert m[5..7] == "G3";
    TokenOf(m, 8, 2);
    assert m[8..10] == "!a";
  }

  /** The rest of "bind G3 !a  b" from the action on. */
  lemma VerbatimRest()
    ensures CString("bind G3 !a  b", 8) == "!a  b"
  {
    var m := "bind G3 !a  b";
    CStringFrom(m, 8, |m|);
    assert m[8..] == "!a  b";
  }

  /** A '!' action keeps the rest of the line verbatim, inner spaces included. */
  lemma BindCommandVerbatim()
    ensures BindArguments("bind G3 !a  b", 5) == BindArgs("G3", "!a  b")
  {
    var m := "bind G3 !a  b";
    VerbatimTokens();
    VerbatimRest();
    BindArgumentCases(m, 5, Extracted("G3", 8), Extracted("!a", 11), ExtractToken(m, 11));
  }

  /**
   * A bind with a single argument: extract_and_advance_token steps back one
   * byte at the end of the line, so the key name is read a second time and
   * becomes the action, after a space.
   */
  lemma BindSingleArgument()
    ensures BindArguments("bind G1", 5) == BindArgs("G1", " G1")
  {
    var m := "bind G1";
    TokenOf(m, 5, 2);
    assert m[5..7] == "G1";
    TokenOf(m, 4, 0);
    assert m[4..4] == "";
    BindArgumentCases(m, 5, Extracted("G1", 4), Extracted("", 5), Extracted("G1", 4));
  }

  /** What set_mode does to the stick settings. */
  function ModeSwitched(s: StickSettings, m: StickMode): StickSettings
  {
    if m == s.mode then s
    else s.(mode := m, bounds := if m == CalibBounds then INVERTED_BOUNDS else s.bounds)
  }

  /**
   * The four strtod calls of "stickzone bounds", each starting where the
   * previous one stopped: the bounds, or none when the first three
   * consumed nothing.
   */
  function ParseBounds(strtod: string -> (real, nat), mem: string, pos: int): Option<ZoneBounds>
  {
    var (x1, n1) := strtod(CString(mem, pos));
    var (y1, n2) := strtod(CString(mem, pos + n1));
    var (x2, n3) := strtod(CString(mem, pos + n1 + n2));
    var (y2, _) := strtod(CString(mem, pos + n1 + n2 + n3));
    if n1 + n2 + n3 == 0 then None else Some(ZoneBounds(x1, y1, x2, y2))
  }

  /** The line "stickzone bounds" prints before it sets the parsed bounds. */
  function BoundsMessage(formatDouble: real -> string, b: ZoneBounds): (r: string)
    ensures |r| >= 15 && r[..15] == "Setting bounds "
  {
    "Setting bounds " + formatDouble(b.x1) + " " + formatDouble(b.y1) + " " + formatDouble(b.x2) + " " + formatDouble(b.y2)
  }

  /** What an edit by stickzone does to the state of its zone. */
  function EditedZone(op: string, s: ZoneState, made: Result<Action>, b: Option<ZoneBounds>): ZoneState
  {
    if op == "action" && made.Success? then s.(action := Some(made.value))
    else if op == "bounds" && b.Some? then s.(bounds := b.value)
    else s
  }

  // ------------------------------------------------------------- the device

  /** A font WriteString can draw with: 256 glyphs no wider than a glyph buffer. */
  predicate FontOk(f: Font)
  {
    f.Valid() && f.width <= CHAR_BUF_SIZE
  }

  // ------------------------------------------------------------- delete

  /** The zones whose names are not among ns, in list order. */
  function Without(zs: seq<StickZone>, ns: seq<string>): seq<StickZone>
  {
    if zs == [] then []
    else
      var front := Without(zs[..|zs| - 1], ns);
      if zs[|zs| - 1].name in ns then front else front + [zs[|zs| - 1]]
  }

  /** Removing the zones of one more name is one more RemoveZone. */
  lemma {:induction false} WithoutSnoc(zs: seq<StickZone>, ns: seq<string>, n: string)
    ensures Without(zs, ns + [n]) == RemoveNamed(Without(zs, ns), n)
  {
    if zs != [] {
      var front := zs[..|zs| - 1];
      var last := zs[|zs| - 1];
      WithoutSnoc(front, ns, n);
      var w := Without(front, ns);
      if last.name !in ns {
        assert (w + [last])[..|w + [last]| - 1] == w;
      }
    }
  }

  /** Removing no names keeps every zone. */
  lemma {:induction false} WithoutNothing(zs: seq<StickZone>)
    ensures Without(zs, []) == zs
  {
    if zs != [] {
      WithoutNothing(zs[..|zs| - 1]);
      assert zs == zs[..|zs| - 1] + [zs[|zs| - 1]];
    }
  }

  /** The zones kept are exactly those whose name is not listed. */
  lemma {:induction false} WithoutMembers(zs: seq<StickZone>, ns: seq<string>)
    ensures forall z :: z in Without(zs, ns) <==> z in zs && z.name !in ns
  {
    if zs != [] {
      var front := zs[..|zs| - 1];
      WithoutMembers(front, ns);
      assert zs == front + [zs[|zs| - 1]];
    }
  }

  /** A zone whose name is not listed is still there to be found. */
  lemma WithoutPresent(zs: seq<StickZone>, ns: seq<string>, k: nat)
    requires k < |zs| && zs[k].name !in ns
    ensures FirstNamed(Without(zs, ns), zs[k].name).Some?
  {
    WithoutMembers(zs, ns);
    var w := Without(zs, ns);
    assert zs[k] in w;
    var m :| 0 <= m < |w| && w[m] == zs[k];
  }

  /** One step of delete zone: the next listed name is still there, and removing it removes one more name. */
  lemma RemoveStep(zs: seq<StickZone>, ns: seq<string>, j: nat)
    requires j < |ns| && forall n | n in ns :: n in Names(zs)
    requires forall a, b | 0 <= a < b < |ns| :: ns[a] != ns[b]
    ensures FirstNamed(Without(zs, ns[..j]), ns[j]).Some?
    ensures Without(zs, ns[..j + 1]) == RemoveNamed(Without(zs, ns[..j]), ns[j])
  {
    assert ns[j] in Names(zs);
    var k :| 0 <= k < |zs| && zs[k].name == ns[j];
    assert ns[j] !in ns[..j];
    WithoutPresent(zs, ns[..j], k);
    assert ns[..j + 1] == ns[..j] + [ns[j]];
    WithoutSnoc(zs, ns[..j], ns[j]);
  }

  /** Removing exactly the matching names leaves exactly the zones that do not match. */
  lemma WithoutMatching(zs: seq<StickZone>, ns: seq<string>, matches: string -> bool)
    requires forall n :: n in ns <==> n in Names(zs) && matches(n)
    ensures forall z :: z in Without(zs, ns) <==> z in zs && !matches(z.name)
  {
    WithoutMembers(zs, ns);
    forall z | z in zs
      ensures z.name in Names(zs)
    {
      var k :| 0 <= k < |zs| && zs[k] == z;
      assert Names(zs)[k] == z.name;
    }
  }

  /** On a list with distinct names, the matching names are distinct too. */
  lemma {:induction false} FilterZonesDistinct(zs: seq<StickZone>, matches: string -> bool)
    requires NamesDistinct(zs)
    ensures forall i, j | 0 <= i < j < |FilterZones(zs, matches)| ::
      FilterZones(zs, matches)[i] != FilterZones(zs, matches)[j]
  {
    if zs != [] {
      var front := zs[..|zs| - 1];
      assert NamesDistinct(front);
      FilterZonesDistinct(front, matches);
      FilterZonesSpec(front, matches);
      assert zs[|zs| - 1].name !in Names(front);
    }
  }

  /** The slot of each name delete key lists is the slot of that name. */
  lemma UnbindFound(keys: seq<Key>, ns: seq<string>, matches: string -> bool, j: nat)
    requires WellFormed(keys) && ns == FilterKeys(keys, matches, false) && j < |ns|
    ensures 0 <= FindG13KeyValue(ns[j]) < |keys| && keys[FindG13KeyValue(ns[j])].name == ns[j]
  {
    FilterKeysMembers(keys, matches, false);
    assert ns[j] in ns;
    var s :| 0 <= s < |keys| && keys[s].name == ns[j] && Kept(keys[s], matches, false);
    SlotOfName(s);
  }

  /** One step of delete key: unbinding the slot of the next name unbinds one more listed name. */
  lemma UnbindStep(k0: seq<Key>, keys: seq<Key>, ns: seq<string>, j: nat, slot: nat)
    requires WellFormed(k0) && |keys| == |k0| && j < |ns| && slot < |k0| && k0[slot].name == ns[j]
    requires forall i | 0 <= i < |k0| :: keys[i] == if k0[i].name in ns[..j] then k0[i].(action := None) else k0[i]
    ensures forall i | 0 <= i < |k0| ::
      keys[slot := keys[slot].(action := None)][i] == if k0[i].name in ns[..j + 1] then k0[i].(action := None) else k0[i]
  {
    assert ns[..j + 1] == ns[..j] + [ns[j]];
    forall i | 0 <= i < |k0|
      ensures keys[slot := keys[slot].(action := None)][i] ==
        if k0[i].name in ns[..j + 1] then k0[i].(action := None) else k0[i]
    {
      SameNameSameSlot(k0, i, slot);
    }
  }

  /** What delete logs: one message per name, or that nothing matched. */
  function DeleteLog(pre: string, names: seq<string>, post: string, target: string, glob: string): seq<string>
  {
    Messages(pre, names, post) + if names == [] then ["No " + target + " name matches <" + glob + ">"] else []
  }

  // ------------------------------------------------------------ Command

  /** What Command logs when a handler throws. */
  function Failed(err: Option<string>): seq<string>
  {
    if err.Some? then ["command failed : " + err.value] else []
  }

  /** The names of a load stack, as a set. */
  function Loading(stack: seq<string>): set<string>
  {
    set f | f in stack
  }

  /** How many files are left to load: those that exist and are not on the load stack. */
  function Remaining(files: set<string>, stack: seq<string>): nat
  {
    |files - Loading(stack)|
  }

  /** Pushing a file that exists and is not being loaded leaves fewer files to load. */
  lemma BudgetShrinks(files: set<string>, stack: seq<string>, clean: string)
    requires clean in files && clean !in stack
    ensures Remaining(files, stack + [clean]) < Remaining(files, stack)
  {
    assert Loading(stack + [clean]) == Loading(stack) + {clean};
    assert files - Loading(stack) == (files - Loading(stack + [clean])) + {clean};
  }

  // ------------------------------------------------------- ProcessBuffer

  predicate IsEol(c: char)
  {
    c == '\r' || c == '\n'
  }

  /** The lines ProcessBuffer runs, as (start, terminator) positions, and where the unfinished line starts. */
  datatype Scan = Scan(lines: seq<(nat, nat)>, begin: nat)

  /**
   * The scan from position i, the current line having started at begin:
   * every '\r' or '\n' ends a line, which is run unless it is empty.
   */
  function ScanLines(buf: seq<char>, begin: nat, i: nat, total: nat): Scan
    requires begin <= i <= total <= |buf|
    decreases total - i
  {
    if i == total then Scan([], begin)
    else if IsEol(buf[i]) then
      var rest := ScanLines(buf, i + 1, i + 1, total);
      if i != begin then Scan([(begin, i)] + rest.lines, rest.begin) else rest
    else ScanLines(buf, begin, i + 1, total)
  }

  /** Every line scanned is non-empty, ends at a terminator, holds none, and the lines come in order. */
  lemma {:induction false} ScanLinesSpec(buf: seq<char>, begin: nat, i: nat, total: nat)
    requires begin <= i <= total <= |buf|
    requires forall k | begin <= k < i :: !IsEol(buf[k])
    ensures var s := ScanLines(buf, begin, i, total);
      begin <= s.begin <= total &&
      (forall k | s.begin <= k < total :: !IsEol(buf[k])) &&
      (forall n | 0 <= n < |s.lines| ::
         begin <= s.lines[n].0 < s.lines[n].1 < s.begin && IsEol(buf[s.lines[n].1]) &&
         forall k | s.lines[n].0 <= k < s.lines[n].1 :: !IsEol(buf[k])) &&
      (forall n | 0 < n < |s.lines| :: s.lines[n - 1].1 < s.lines[n].0)
    decreases total - i
  {
    if i < total {
      if IsEol(buf[i]) {
        ScanLinesSpec(buf, i + 1, i + 1, total);
      } else {
        ScanLinesSpec(buf, begin, i + 1, total);
      }
    }
  }

  /** The buffer after the scan: a NUL written over the terminator of each line run. */
  function Cut(buf: seq<char>, lines: seq<(nat, nat)>): (r: seq<char>)
    ensures |r| == |buf|
  {
    if lines == [] then buf
    else
      var front := Cut(buf, lines[..|lines| - 1]);
      var e := lines[|lines| - 1].1;
      if e < |front| then front[e := '\0'] else front
  }

  /** The scan so far followed by the scan of the rest. */
  function Joined(lines: seq<(nat, nat)>, rest: Scan): Scan
  {
    Scan(lines + rest.lines, rest.begin)
  }

  /**
   * The scan from bufferEnd is the lines found so far followed by the scan from i, with begin as the
   * start, and every line found so far ends before begin.
   */
  predicate ScannedTo(buf: seq<char>, bufferEnd: nat, total: nat, lines: seq<(nat, nat)>, begin: nat, i: nat)
  {
    bufferEnd <= total && begin <= i <= total <= |buf| &&
    ScanLines(buf, 0, bufferEnd, total) == Joined(lines, ScanLines(buf, begin, i, total)) &&
    forall n | 0 <= n < |lines| :: lines[n].1 < begin
  }

  /** Cutting one more line writes a NUL at its terminator. */
  lemma CutSnoc(buf: seq<char>, lines: seq<(nat, nat)>, line: (nat, nat))
    requires line.1 < |buf|
    ensures Cut(buf, lines + [line]) == Cut(buf, lines)[line.1 := '\0']
  {
    assert (lines + [line])[..|lines|] == lines;
  }

  /** A position that ends no cut line keeps its byte. */
  lemma {:induction false} CutElsewhere(buf: seq<char>, lines: seq<(nat, nat)>, k: nat)
    requires k < |buf| && forall n | 0 <= n < |lines| :: lines[n].1 != k
    ensures Cut(buf, lines)[k] == buf[k]
  {
    if lines != [] {
      CutElsewhere(buf, lines[..|lines| - 1], k);
    }
  }

  /** Past the terminators of all cut lines the buffer is as it was. */
  lemma CutKeepsTail(buf: seq<char>, lines: seq<(nat, nat)>, from: nat)
    requires from <= |buf| && forall n | 0 <= n < |lines| :: lines[n].1 < from
    ensures Cut(buf, lines)[from..] == buf[from..]
  {
    forall k | from <= k < |buf| ensures Cut(buf, lines)[k] == buf[k] {
      CutElsewhere(buf, lines, k);
    }
  }

  /** Where the line loop stands after the byte at i: the start of the current line, and the lines found. */
  function LineStep(buf: seq<char>, begin: nat, i: nat, lines: seq<(nat, nat)>): (nat, seq<(nat, nat)>)
    requires i < |buf|
  {
    if !IsEol(buf[i]) then (begin, lines)
    else if i != begin then (i + 1, lines + [(begin, i)])
    else (i + 1, lines)
  }

  /** One step of the line loop keeps the scan, the cuts and the order of the lines in step. */
  lemma ScanAdvance(buf: seq<char>, bufferEnd: nat, total: nat, i: nat, begin: nat, lines: seq<(nat, nat)>)
    requires bufferEnd <= i < total <= |buf| && begin <= i
    requires ScanLines(buf, 0, bufferEnd, total) == Joined(lines, ScanLines(buf, begin, i, total))
    requires forall n | 0 <= n < |lines| :: lines[n].1 < begin
    ensures Cut(buf, lines)[i] == buf[i]
    ensures var (next, after) := LineStep(buf, begin, i, lines);
      next <= i + 1 &&
      ScanLines(buf, 0, bufferEnd, total) == Joined(after, ScanLines(buf, next, i + 1, total)) &&
      Cut(buf, after) == (if IsEol(buf[i]) && i != begin then Cut(buf, lines)[i := '\0'] else Cut(buf, lines)) &&
      forall n | 0 <= n < |after| :: after[n].1 < next
  {
    CutElsewhere(buf, lines, i);
    if IsEol(buf[i]) && i != begin {
      CutSnoc(buf, lines, (begin, i));
      var rest := ScanLines(buf, i + 1, i + 1, total);
      assert lines + ([(begin, i)] + rest.lines) == (lines + [(begin, i)]) + rest.lines;
    }
  }

  /** The bytes of an image pushed down the pipe. */
  function Bytes(s: seq<char>): (r: seq<bv8>)
    ensures |r| == |s|
  {
    seq(|s|, i requires 0 <= i < |s| => (s[i] as int % 256) as bv8)
  }

  // ------------------------------------------------------ report parsing

  /** ParseKey: whether the report has the key's bit set (offsets count from byte 3). */
  function ReportBit(report: seq<bv8>, key: int): bool
    requires |report| == REPORT_SIZE && 0 <= key < NUM_KEYS
  {
    KeyIndexLayout(key);
    var k := MakeKeyIndex(key);
    report[3 + k.offset] & k.mask as bv8 != 0
  }

  /** The key-state array once ParseKeys has visited the first n slots: each read slot holds its bit. */
  function ParsedState(report: seq<bv8>, keys0: seq<bool>, n: nat): (r: seq<bool>)
    requires |report| == REPORT_SIZE && |keys0| == NUM_KEYS
    ensures |r| == NUM_KEYS
  {
    seq(NUM_KEYS, j requires 0 <= j < NUM_KEYS => if j < n && ParsedSlot(j) then ReportBit(report, j) else keys0[j])
  }

  /** Whether every read slot among the first n already holds its bit of the report. */
  predicate Settled(report: seq<bv8>, keys0: seq<bool>, n: nat)
    requires |report| == REPORT_SIZE && |keys0| == NUM_KEYS && n <= NUM_KEYS
  {
    forall j | 0 <= j < n && ParsedSlot(j) :: ReportBit(report, j) == keys0[j]
  }

  /** Visiting slot i records its bit if it is read, and leaves the other slots as they were. */
  lemma ParsedStateStep(report: seq<bv8>, keys0: seq<bool>, i: nat)
    requires |report| == REPORT_SIZE && |keys0| == NUM_KEYS && i < NUM_KEYS
    ensures ParsedState(report, keys0, i + 1) ==
      if ParsedSlot(i) then ParsedState(report, keys0, i)[i := ReportBit(report, i)] else ParsedState(report, keys0, i)
  {
  }

  /** The input events one effect sends. */
  function EffectEvents(e: Effect): seq<InputEvent>
  {
    if e.SendEvents? then KeyInputs(e.events) else []
  }

  /** The output-pipe writes one effect asks for. */
  function EffectTexts(e: Effect): seq<string>
  {
    if e.PipeWrite? then [e.text] else []
  }

  /** The input events a list of effects sends, in order. */
  function EventsOf(es: seq<Effect>): seq<InputEvent>
  {
    if es == [] then [] else EventsOf(es[..|es| - 1]) + EffectEvents(es[|es| - 1])
  }

  /** The output-pipe writes a list of effects asks for, in order. */
  function PipeTextsOf(es: seq<Effect>): seq<string>
  {
    if es == [] then [] else PipeTextsOf(es[..|es| - 1]) + EffectTexts(es[|es| - 1])
  }

  /** One more effect adds its own events and pipe text at the end. */
  lemma SentSnoc(es: seq<Effect>, i: nat)
    requires i < |es|
    ensures EventsOf(es[..i + 1]) == EventsOf(es[..i]) + EffectEvents(es[i])
    ensures PipeTextsOf(es[..i + 1]) == PipeTextsOf(es[..i]) + EffectTexts(es[i])
  {
    PrefixSnoc(es, i);
  }

  /** No effect in the list resubmits a command. */
  predicate NoCommands(es: seq<Effect>)
  {
    forall j | 0 <= j < |es| :: !es[j].Resubmit?
  }

  /** SentSnoc after output already sent. */
  lemma SentStep(es: seq<Effect>, i: nat, events: seq<InputEvent>, texts: seq<string>)
    requires i < |es|
    ensures events + EventsOf(es[..i]) + EffectEvents(es[i]) == events + EventsOf(es[..i + 1])
    ensures texts + PipeTextsOf(es[..i]) + EffectTexts(es[i]) == texts + PipeTextsOf(es[..i + 1])
  {
    SentSnoc(es, i);
    Append3(events, EventsOf(es[..i]), EffectEvents(es[i]));
    Append3(texts, PipeTextsOf(es[..i]), EffectTexts(es[i]));
  }

  /** The stack of files being loaded, which a nested load pushes and pops. */
  class LoadStack {
    var names: seq<string>

    constructor()
      ensures names == []
    {
      names := [];
    }
  }

  /** Device: one G13 keypad and the command interpreter that configures it. */
  class Device {
    /** input_name_to_key: the Linux key names. */
    const inputNameToKey: map<string, LinuxKey>
    /** The lines std::getline reads from each file that opens. */
    const files: map<string, seq<string>>
    /** strerror(errno) after a file of that name fails to open. */
    const openError: string -> string
    /** NormalizeFilePath: a file name resolved against the stack of files being loaded. */
    const normalizePath: (seq<string>, string) -> string
    /** The what() of the std::regex_error a pattern raises, if it is not a valid regular expression. */
    const regexError: string -> Option<string>
    /** std::regex_match(name, pattern), written here with the pattern first. */
    const regexMatch: (string, string) -> bool
    /** The floating-point stick normalisation. */
    const normalizeStick: (StickBounds, StickCoord, StickCoord) -> ZoneCoord
    /** strtol(s, &end, 10) and strtod(s, &end): the value and the number of characters consumed. */
    const strtol: string -> (int, nat)
    const strtod: string -> (real, nat)
    /** How std::ostream writes a double. */
    const formatDouble: real -> string

    var profiles: map<string, Profile>
    var current: Profile
    /** The last known state of each key, by slot. */
    const keys: array<bool>
    /** m_filesLoading: the files being loaded, outermost first. */
    const loading: LoadStack
    var inputPipeFifo: string
    var fonts: map<string, Font?>
    var currentFont: Font
    const screen: Screen
    const stick: Stick

    /** What the device has sent, oldest first: uinput events, output-pipe text, log lines, control transfers. */
    var events: seq<InputEvent>
    var pipeOut: seq<string>
    var log: seq<string>
    var control: seq<ControlWrite>

    /** Every profile made so far; one erased from the map may still be the current one. */
    ghost var allProfiles: set<Profile>

    ghost predicate Valid()
      reads this`profiles, this`current, this`allProfiles, this`fonts, this`currentFont, screen, stick, allProfiles
    {
      keys.Length == NUM_KEYS && screen.Valid() && stick.Valid() && ProfilesOk() && FontsOk()
    }

    /** The current profile and every profile of the map are known, and every known profile is valid. */
    ghost predicate ProfilesOk()
      reads this`profiles, this`current, this`allProfiles, allProfiles
    {
      current in allProfiles && (forall n | n in profiles :: profiles[n] in allProfiles) &&
      forall q | q in allProfiles :: q.Valid()
    }

    /** The current font, and every font of the map that is not null, can be drawn with. */
    predicate FontsOk()
      reads this`fonts, this`currentFont
    {
      FontOk(currentFont) && forall n | n in fonts && fonts[n] != null :: FontOk(fonts[n])
    }

    /** The objects the device owns. */
    ghost function Frame(): set<object>
      reads this`allProfiles, stick`zones
    {
      {this, keys, screen, screen.image, stick, loading} + allProfiles + (set z | z in stick.zones)
    }

    twostate predicate SameProfiles()
      reads this
    {
      profiles == old(profiles) && current == old(current) && allProfiles == old(allProfiles)
    }

    twostate predicate SameFonts()
      reads this
    {
      fonts == old(fonts) && currentFont == old(currentFont)
    }

    twostate predicate SameSinks()
      reads this
    {
      events == old(events) && pipeOut == old(pipeOut) && log == old(log) && control == old(control)
    }

    /** What every command keeps: validity, only new objects, the load stack, and output only appended. */
    twostate predicate Evolved()
      reads this, keys, screen, stick, allProfiles, loading
    {
      Valid() && fresh(Frame() - old(Frame())) && old(allProfiles) <= allProfiles &&
      loading.names == old(loading.names) && unchanged(keys) &&
      old(events) <= events && old(pipeOut) <= pipeOut && old(log) <= log && old(control) <= control
    }

    /** Everything but the log is as it was. */
    twostate predicate OnlyLogged()
      reads this, keys, screen, screen.image, stick, stick.zones, allProfiles, loading
    {
      SameProfiles() && SameFonts() && events == old(events) && pipeOut == old(pipeOut) && control == old(control) &&
      loading.names == old(loading.names) && inputPipeFifo == old(inputPipeFifo) &&
      unchanged(keys, screen, screen.image, stick) && unchanged(allProfiles) && unchanged(stick.zones)
    }

    /** What is left to load: the files that exist and are not being loaded. */
    ghost function Budget(): nat
      reads this, loading
    {
      Remaining(files.Keys, loading.names)
    }

    /** Device(...): a "default" profile, all keys up, a cleared image, the two fonts and a fresh stick. */
    constructor(inputNameToKey: map<string, LinuxKey>, files: map<string, seq<string>>, openError: string -> string,
                normalizePath: (seq<string>, string) -> string, regexError: string -> Option<string>,
                regexMatch: (string, string) -> bool, normalizeStick: (StickBounds, StickCoord, StickCoord) -> ZoneCoord,
                strtol: string -> (int, nat), strtod: string -> (real, nat), formatDouble: real -> string)
      requires forall d | d in DIRECTIONS :: KnownDirection(inputNameToKey, d)
      ensures Valid() && fresh(keys) && fresh(screen) && fresh(screen.image) && fresh(stick) && fresh(current)
      ensures forall z | z in stick.zones :: fresh(z)
      ensures this.inputNameToKey == inputNameToKey && this.files == files && this.openError == openError
      ensures this.normalizePath == normalizePath
      ensures this.regexError == regexError && this.regexMatch == regexMatch && this.normalizeStick == normalizeStick
      ensures this.strtol == strtol && this.strtod == strtod && this.formatDouble == formatDouble
      ensures profiles.Keys == {"default"} && current == profiles["default"] && allProfiles == {current}
      ensures current.name == "default" && forall i | 0 <= i < |current.keys| :: current.keys[i].action == None
      ensures keys[..] == seq(NUM_KEYS, _ => false)
      ensures fonts.Keys == {"8x8", "5x8"} && fonts["8x8"] == currentFont && fonts["5x8"] != null
      ensures currentFont.name == "8x8" && currentFont.width == 8
      ensures fonts["5x8"].name == "5x8" && fonts["5x8"].width == 5
      ensures screen.Cur() == Cursor(0, 0) && screen.textMode == 0 && screen.sent == []
      ensures screen.image[..] == seq(IMAGE_LENGTH, _ => 0)
      ensures stick.Settings().mode == Keys && |stick.zones| == 4
      ensures fresh(loading) && loading.names == [] && inputPipeFifo == "" && events == [] && pipeOut == [] && log == [] && control == []
    {
      var p, large, small, sc, st, kb := NewParts(inputNameToKey);
      var ld := new LoadStack();
      this.inputNameToKey := inputNameToKey;
      this.files := files;
      this.openError := openError;
      this.normalizePath := normalizePath;
      this.regexError := regexError;
      this.regexMatch := regexMatch;
      this.normalizeStick := normalizeStick;
      this.strtol := strtol;
      this.strtod := strtod;
      this.formatDouble := formatDouble;
      profiles := map["default" := p];
      current := p;
      allProfiles := {p};
      keys := kb;
      loading := ld;
      inputPipeFifo := "";
      fonts := map["8x8" := large, "5x8" := small];
      currentFont := large;
      screen := sc;
      stick := st;
      events := [];
      pipeOut := [];
      log := [];
      control := [];
    }

    /** The objects a new device owns: the default profile, the two fonts, the screen and the stick. */
    static method NewParts(inputNameToKey: map<string, LinuxKey>)
      returns (p: Profile, large: Font, small: Font, sc: Screen, st: Stick, kb: array<bool>)
      requires forall d | d in DIRECTIONS :: KnownDirection(inputNameToKey, d)
      ensures fresh(p) && p.Valid() && p.name == "default"
      ensures forall i | 0 <= i < |p.keys| :: p.keys[i].action == None
      ensures fresh(large) && fresh(small) && FontOk(large) && FontOk(small)
      ensures large.name == "8x8" && large.width == 8 && small.name == "5x8" && small.width == 5
      ensures large.name != small.name
      ensures fresh(sc) && fresh(sc.image) && sc.Valid()
      ensures sc.Cur() == Cursor(0, 0) && sc.textMode == 0 && sc.sent == []
      ensures sc.image[..] == seq(IMAGE_LENGTH, _ => 0)
      ensures fresh(st) && st.Valid() && st.Settings().mode == Keys && |st.zones| == 4
      ensures forall z | z in st.zones :: fresh(z)
      ensures fresh(kb) && kb.Length == NUM_KEYS && kb[..] == seq(NUM_KEYS, _ => false)
    {
      kb := new bool[NUM_KEYS](_ => false);
      p := NewProfile();
      large, small := InitFonts();
      sc := NewScreen();
      st := NewStick(inputNameToKey);
    }

    /** InitFonts: the 8-wide "8x8" font and the 5-wide "5x8" font (their glyph data is not modelled). */
    static method InitFonts() returns (large: Font, small: Font)
      ensures fresh(large) && fresh(small) && FontOk(large) && FontOk(small)
      ensures large.name == "8x8" && large.width == 8 && small.name == "5x8" && small.width == 5
      ensures large.name != small.name
    {
      large := new Font("8x8", 8);
      small := new Font("5x8", 5);
      assert "8x8"[0] != "5x8"[0];
    }

    /** The "default" profile the device is built with: every slot unbound. */
    static method NewProfile() returns (p: Profile)
      ensures fresh(p) && p.Valid() && p.name == "default"
      ensures forall i | 0 <= i < |p.keys| :: p.keys[i].action == None
    {
      p := new Profile.Init("default");
      InitialKeysLayout();
    }

    /** The screen the device is built with; the constructor clears its image. */
    static method NewScreen() returns (s: Screen)
      ensures fresh(s) && fresh(s.image) && s.Valid()
      ensures s.Cur() == Cursor(0, 0) && s.textMode == 0 && s.sent == []
      ensures s.image[..] == seq(IMAGE_LENGTH, _ => 0)
    {
      s := new Screen();
      s.ImageClear();
      assert s.image[..] == s.image[..SCREEN_BUF_SIZE] + s.image[SCREEN_BUF_SIZE..];
    }

    /** The stick the device is built with. */
    static method NewStick(inputNameToKey: map<string, LinuxKey>) returns (s: Stick)
      requires forall d | d in DIRECTIONS :: KnownDirection(inputNameToKey, d)
      ensures fresh(s) && s.Valid() && s.Settings().mode == Keys && |s.zones| == 4
      ensures forall z | z in s.zones :: fresh(z)
    {
      s := new Stick(inputNameToKey);
    }

    /** updateKeyState: store the new state of a key and tell whether it changed. */
    method UpdateKeyState(key: nat, state: bool) returns (changed: bool)
      requires key < keys.Length
      modifies keys
      ensures keys[..] == old(keys[..])[key := state]
      ensures changed <==> old(keys[key]) != state
    {
      changed := keys[key] != state;
      keys[key] := state;
    }

    /**
     * SwitchToProfile: a known name becomes current; an unknown one is
     * added as a fork of the current profile, bindings included, and
     * becomes current.  No profile's slots change.
     */
    method SwitchToProfile(name: string)
      requires Valid()
      modifies this`profiles, this`current, this`allProfiles
      ensures Valid() && fresh(Frame() - old(Frame())) && old(allProfiles) <= allProfiles
      ensures name in old(profiles) ==> profiles == old(profiles) && current == old(profiles[name]) && allProfiles == old(allProfiles)
      ensures name !in old(profiles) ==>
        fresh(current) && current.name == name && current.keys == old(current.keys) &&
        profiles == old(profiles)[name := current] && allProfiles == old(allProfiles) + {current}
      ensures forall q | q in old(allProfiles) :: q.keys == old(q.keys)
      ensures SameFonts() && SameSinks() && inputPipeFifo == old(inputPipeFifo)
    {
      if name in profiles {
        current := profiles[name];
      } else {
        AddProfile(name);
      }
    }

    /** The branch of SwitchToProfile for a new name: a fork of the current profile becomes current. */
    method AddProfile(name: string)
      requires Valid() && name !in profiles
      modifies this`profiles, this`current, this`allProfiles
      ensures Valid() && fresh(Frame() - old(Frame())) && old(allProfiles) <= allProfiles
      ensures fresh(current) && current.name == name && current.keys == old(current.keys)
      ensures profiles == old(profiles)[name := current] && allProfiles == old(allProfiles) + {current}
      ensures forall q | q in old(allProfiles) :: q.keys == old(q.keys)
    {
      var p := new Profile.Fork(current, name);
      profiles := profiles[name := p];
      allProfiles := allProfiles + {p};
      current := p;
    }

    /** SwitchToFont: the font of that name (null when absent, which the lookup inserts); only a real font becomes current. */
    method SwitchToFont(name: string) returns (font: Font?)
      requires Valid()
      modifies this
      ensures Valid() && Frame() == old(Frame())
      ensures font == (if name in old(fonts) then old(fonts[name]) else null)
      ensures fonts == (if name in old(fonts) then old(fonts) else old(fonts)[name := null])
      ensures currentFont == (if font != null then font else old(currentFont))
      ensures SameProfiles() && SameSinks() && inputPipeFifo == old(inputPipeFifo)
    {
      if name !in fonts {
        fonts := fonts[name := null];
      }
      font := fonts[name];
      if font != null {
        currentFont := font;
      }
    }

    /** FilteredProfileNames: every profile name the pattern matches, each once. */
    method FilteredProfileNames(pattern: string) returns (names: seq<string>)
      ensures forall n :: n in names <==> n in profiles && regexMatch(pattern, n)
      ensures forall i, j | 0 <= i < j < |names| :: names[i] != names[j]
    {
      names := [];
      var rest := profiles.Keys;
      while rest != {}
        invariant rest <= profiles.Keys
        invariant forall n :: n in names <==> n in profiles && n !in rest && regexMatch(pattern, n)
        invariant forall i, j | 0 <= i < j < |names| :: names[i] != names[j]
        decreases |rest|
      {
        var n :| n in rest;
        if regexMatch(pattern, n) {
          names := names + [n];
        }
        rest := rest - {n};
      }
    }

    // ------------------------------------------------------------ handlers

    /**
     * out: log the text, then write the rest of the line at the cursor
     * with the current font and send the image.  A glyph that would run
     * past the image buffer is not drawn, but the cursor still moves.
     */
    method OutCommand(mem: string, pos: int) returns (logged: seq<string>)
      requires Valid()
      modifies screen, screen.image
      ensures Valid() && screen.textMode == old(screen.textMode)
      ensures logged == ["writing \"" + CString(mem, pos) + "\""]
      ensures screen.Cur() == old(Walk(screen.Cur(), CString(mem, pos), currentFont.width))
      ensures screen.image[..] == old(Render(screen.image[..], screen.Cur(), CString(mem, pos), currentFont, screen.textMode != 0))
      ensures screen.sent == old(screen.sent) + [Packet(screen.image[..SCREEN_BUF_SIZE])]
    {
      var text := CString(mem, pos);
      logged := ["writing \"" + text + "\""];
      screen.WriteString(currentFont, text);
    }

    /** pos: two decimal integers and nothing after them set the cursor; anything else is logged. */
    method PosCommand(mem: string, pos: int) returns (logged: seq<string>)
      requires Valid()
      modifies screen
      ensures Valid() && screen.textMode == old(screen.textMode) && screen.sent == old(screen.sent)
      ensures var (row, n1) := strtol(CString(mem, pos));
        var (col, n2) := strtol(CString(mem, pos + n1));
        (At(mem, pos + n1 + n2) != '\0' ==>
           logged == ["Bad pos : " + CString(mem, pos)] && screen.Cur() == old(screen.Cur())) &&
        (At(mem, pos + n1 + n2) == '\0' ==>
           logged == [] &&
           screen.cursorRow == (if 0 <= ToInt32(row) < SCREEN_TEXT_ROWS then ToInt32(row) else 0) &&
           screen.cursorCol == (if 0 <= ToInt32(col) < SCREEN_COLUMNS then ToInt32(col) else 0))
    {
      var (row, n1) := strtol(CString(mem, pos));
      var (col, n2) := strtol(CString(mem, pos + n1));
      if At(mem, pos + n1 + n2) != '\0' {
        return ["Bad pos : " + CString(mem, pos)];
      }
      screen.WritePos(ToInt32(row), ToInt32(col));
      return [];
    }

    /** mod: one decimal integer and nothing after it sets the mode LEDs (its low byte is sent). */
    method ModCommand(mem: string, pos: int) returns (logged: seq<string>)
      modifies this
      ensures var (leds, n) := strtol(CString(mem, pos));
        (At(mem, pos + n) != '\0' ==>
           logged == ["Bad mod format: <" + CString(mem, pos) + ">"] && control == old(control)) &&
        (At(mem, pos + n) == '\0' ==> logged == [] && control == old(control) + [ModeLeds(ToByte(ToInt32(leds)))])
      ensures SameProfiles() && SameFonts() && inputPipeFifo == old(inputPipeFifo)
      ensures events == old(events) && pipeOut == old(pipeOut) && log == old(log)
    {
      var (leds, n) := strtol(CString(mem, pos));
      if At(mem, pos + n) != '\0' {
        return ["Bad mod format: <" + CString(mem, pos) + ">"];
      }
      control := control + [ModeLeds(ToByte(ToInt32(leds)))];
      return [];
    }

    /** textmode: one decimal integer and nothing after it sets the text mode. */
    method TextModeCommand(mem: string, pos: int) returns (logged: seq<string>)
      requires Valid()
      modifies screen
      ensures Valid() && screen.Cur() == old(screen.Cur()) && screen.sent == old(screen.sent)
      ensures var (mode, n) := strtol(CString(mem, pos));
        (At(mem, pos + n) != '\0' ==>
           logged == ["bad textmode format: <" + CString(mem, pos) + ">"] && screen.textMode == old(screen.textMode)) &&
        (At(mem, pos + n) == '\0' ==> logged == [] && screen.textMode == ToInt32(mode))
    {
      var (mode, n) := strtol(CString(mem, pos));
      if At(mem, pos + n) != '\0' {
        return ["bad textmode format: <" + CString(mem, pos) + ">"];
      }
      screen.SetTextMode(ToInt32(mode));
      return [];
    }

    /** rgb: three decimal integers and nothing after them set the key colour (their low bytes are sent). */
    method RgbCommand(mem: string, pos: int) returns (logged: seq<string>)
      modifies this
      ensures var (red, n1) := strtol(CString(mem, pos));
        var (green, n2) := strtol(CString(mem, pos + n1));
        var (blue, n3) := strtol(CString(mem, pos + n1 + n2));
        (At(mem, pos + n1 + n2 + n3) != '\0' ==>
           logged == ["rgb bad format: <" + CString(mem, pos) + ">"] && control == old(control)) &&
        (At(mem, pos + n1 + n2 + n3) == '\0' ==>
           logged == [] &&
           control == old(control) + [KeyColor(ToByte(ToInt32(red)), ToByte(ToInt32(green)), ToByte(ToInt32(blue)))])
      ensures SameProfiles() && SameFonts() && inputPipeFifo == old(inputPipeFifo)
      ensures events == old(events) && pipeOut == old(pipeOut) && log == old(log)
    {
      var (red, n1) := strtol(CString(mem, pos));
      var (green, n2) := strtol(CString(mem, pos + n1));
      var (blue, n3) := strtol(CString(mem, pos + n1 + n2));
      if At(mem, pos + n1 + n2 + n3) != '\0' {
        return ["rgb bad format: <" + CString(mem, pos) + ">"];
      }
      control := control + [KeyColor(ToByte(ToInt32(red)), ToByte(ToInt32(green)), ToByte(ToInt32(blue)))];
      return [];
    }

    /** stickmode: the mode named in the table is set, by its position there; an unknown name is logged. */
    method StickModeCommand(mem: string, pos: int) returns (logged: seq<string>)
      requires Valid()
      modifies stick
      ensures Valid() && stick.zones == old(stick.zones)
      ensures var name := ExtractToken(mem, pos).token;
        var m := StickModeByName(name);
        (m.None? ==> logged == ["unknown stick mode : <" + name + ">"] && stick.Settings() == old(stick.Settings())) &&
        (m.Some? ==> logged == [] && stick.Settings() == ModeSwitched(old(stick.Settings()), m.value))
    {
      var mode := ExtractToken(mem, pos).token;
      var index := 0;
      while index < |STICK_MODE_NAMES|
        invariant 0 <= index <= |STICK_MODE_NAMES|
        invariant forall k | 0 <= k < index :: STICK_MODE_NAMES[k] != mode
      {
        if STICK_MODE_NAMES[index] == mode {
          stick.SetMode(STICK_MODES[index]);
          return [];
        }
        index := index + 1;
      }
      return ["unknown stick mode : <" + mode + ">"];
    }

    /** dump: the three known targets print the device state; any other is logged. */
    method DumpCommand(mem: string, pos: int) returns (logged: seq<string>)
      ensures var target := ExtractToken(mem, pos).token;
        logged == (if target in {"all", "current", "summary"} then [] else ["Unknown dump target: <" + target + ">"])
    {
      var target := ExtractToken(mem, pos).token;
      if target == "all" || target == "current" || target == "summary" {
        return [];
      }
      return ["Unknown dump target: <" + target + ">"];
    }

    /** clear: blank the shown image and send it. */
    method ClearCommand()
      requires Valid()
      modifies screen, screen.image
      ensures Valid() && screen.Cur() == old(screen.Cur()) && screen.textMode == old(screen.textMode)
      ensures screen.image[..SCREEN_BUF_SIZE] == seq(SCREEN_BUF_SIZE, _ => 0)
      ensures screen.image[SCREEN_BUF_SIZE..] == old(screen.image[SCREEN_BUF_SIZE..])
      ensures screen.sent == old(screen.sent) + [Packet(seq(SCREEN_BUF_SIZE, _ => 0))]
    {
      screen.ImageClear();
      screen.ImageSend();
    }

    /**
     * bind: a G13 key name binds that slot of the current profile, any
     * other name the first stick zone of that name.  A name that is
     * neither, or an action that does not parse, is logged and nothing
     * changes.
     */
    method Bind(keyname: string, action: string)
      requires Valid()
      modifies current, stick, stick.zones, this`log
      ensures Valid() && stick.zones == old(stick.zones) && stick.Settings() == old(stick.Settings())
      ensures var slot := old(current.FindKey(keyname));
        var zone := old(FirstNamed(stick.zones, keyname));
        var made := MakeActionSpec(inputNameToKey, action);
        (slot.None? && zone.None? ==> log == old(log) + ["Bind key " + keyname + " unknown"]) &&
        ((slot.Some? || zone.Some?) && made.Failure? ==>
           log == old(log) + ["Bind " + keyname + " " + action + " failed : " + made.error]) &&
        ((slot.Some? || zone.Some?) && made.Success? ==> log == old(log))
      ensures var slot := old(current.FindKey(keyname));
        var made := MakeActionSpec(inputNameToKey, action);
        current.keys == (if slot.Some? && made.Success?
                         then old(current.keys)[slot.value := old(current.keys)[slot.value].(action := Some(made.value))]
                         else old(current.keys))
      ensures var slot := old(current.FindKey(keyname));
        var zone := old(FirstNamed(stick.zones, keyname));
        var made := MakeActionSpec(inputNameToKey, action);
        forall k | 0 <= k < |stick.zones| ::
          stick.zones[k].State() ==
            if slot.None? && zone == Some(k) && made.Success? then old(stick.zones[k].State()).(action := Some(made.value))
            else old(stick.zones[k].State())
    {
      var slot := current.FindKey(keyname);
      if slot.Some? {
        BindSlot(slot.value, keyname, action);
      } else {
        BindZone(keyname, action);
      }
    }

    /** bind on a key slot of the current profile. */
    method BindSlot(slot: nat, keyname: string, action: string)
      requires Valid() && slot < |current.keys|
      modifies current, this`log
      ensures Valid()
      ensures var made := MakeActionSpec(inputNameToKey, action);
        (made.Failure? ==>
           log == old(log) + ["Bind " + keyname + " " + action + " failed : " + made.error] &&
           current.keys == old(current.keys)) &&
        (made.Success? ==>
           log == old(log) && current.keys == old(current.keys)[slot := old(current.keys)[slot].(action := Some(made.value))])
    {
      var made := MakeActionSpec(inputNameToKey, action);
      if made.Failure? {
        log := log + ["Bind " + keyname + " " + action + " failed : " + made.error];
        return;
      }
      current.SetAction(slot, Some(made.value));
    }

    /** bind on the first stick zone of the name. */
    method BindZone(keyname: string, action: string)
      requires Valid()
      modifies stick, stick.zones, this`log
      ensures Valid() && stick.zones == old(stick.zones) && stick.Settings() == old(stick.Settings())
      ensures var zone := old(FirstNamed(stick.zones, keyname));
        var made := MakeActionSpec(inputNameToKey, action);
        (zone.None? ==> log == old(log) + ["Bind key " + keyname + " unknown"]) &&
        (zone.Some? && made.Failure? ==> log == old(log) + ["Bind " + keyname + " " + action + " failed : " + made.error]) &&
        (zone.Some? && made.Success? ==> log == old(log)) &&
        forall k | 0 <= k < |stick.zones| ::
          stick.zones[k].State() ==
            if zone == Some(k) && made.Success? then old(stick.zones[k].State()).(action := Some(made.value))
            else old(stick.zones[k].State())
    {
      var made := MakeActionSpec(inputNameToKey, action);
      var z := stick.Zone(keyname, false);
      if z == null {
        log := log + ["Bind key " + keyname + " unknown"];
        return;
      }
      if made.Failure? {
        log := log + ["Bind " + keyname + " " + action + " failed : " + made.error];
        return;
      }
      ghost var i := old(FirstNamed(stick.zones, keyname)).value;
      OthersAreOtherObjects(stick.zones, i);
      z.SetAction(Some(made.value));
    }

    /** The arguments of bind, read with extract_and_advance_token and left_trim. */
    static method BindCommandArguments(mem: string, pos: int) returns (b: BindArgs)
      ensures b == BindArguments(mem, pos)
    {
      var keyname, rest := ExtractAndAdvanceToken(mem, pos);
      var raw := LeftTrim(mem, rest);
      var action, rest2 := ExtractAndAdvanceToken(mem, rest);
      var actionUp, _ := ExtractAndAdvanceToken(mem, rest2);
      if action != "" && (action[0] == '!' || action[0] == '>') {
        action := CString(mem, raw);
      } else if actionUp != "" {
        action := action + " " + actionUp;
      }
      return BindArgs(keyname, action);
    }

    /** The zones after "stickzone add name": the zone is appended unless one of that name exists. */
    twostate predicate ZoneAdded(name: string)
      reads stick, stick.zones
    {
      var n := |old(stick.zones)|;
      |stick.zones| >= n &&
      (old(FirstNamed(stick.zones, name)).Some? ==> stick.zones == old(stick.zones)) &&
      (old(FirstNamed(stick.zones, name)).None? ==>
         |stick.zones| == n + 1 && stick.zones[..n] == old(stick.zones) && fresh(stick.zones[n]) &&
         stick.zones[n].name == name && stick.zones[n].State() == ZoneState(ZoneBounds(0.0, 0.0, 0.0, 0.0), None, false)) &&
      forall k | 0 <= k < n :: stick.zones[k].State() == old(stick.zones[k].State())
    }

    /**
     * The zones and the outcome after "stickzone op name text" for every
     * op but add, text starting at pos: the zone must exist; "action"
     * binds it to the parsed action, "bounds" gives it the parsed bounds,
     * "del" removes every zone of the name, and any other op is logged.
     */
    twostate predicate ZoneEdited(zs0: seq<StickZone>, op: string, name: string, mem: string, pos: int,
                                  logged: seq<string>, new err: Option<string>)
      reads stick, zs0
    {
      var idx := FirstNamed(zs0, name);
      var made := MakeActionSpec(inputNameToKey, CString(mem, pos));
      var b := ParseBounds(strtod, mem, pos);
      (idx.None? ==> logged == [] && err == Some("Unknown stick zone")) &&
      (idx.Some? && op == "action" ==> logged == [] && err == (if made.Failure? then Some(made.error) else None)) &&
      (idx.Some? && op == "bounds" ==>
         (b.None? ==> logged == [] && err == Some("bad bounds format")) &&
         (b.Some? ==> logged == [BoundsMessage(formatDouble, b.value)] && err == None)) &&
      (idx.Some? && op == "del" ==> logged == [] && err == None) &&
      (idx.Some? && op !in {"action", "bounds", "del"} ==>
         logged == ["Unknown stickzone operation: <" + op + ">"] && err == None) &&
      stick.zones == (if idx.Some? && op == "del" then RemoveNamed(zs0, name) else zs0) &&
      forall k | 0 <= k < |zs0| ::
        zs0[k].State() == if idx == Some(k) then EditedZone(op, old(zs0[k].State()), made, b) else old(zs0[k].State())
    }

    /** The zones and the outcome after "stickzone text", text starting at pos: add, or an edit of the zone. */
    twostate predicate StickZoned(zs0: seq<StickZone>, mem: string, pos: int, logged: seq<string>, new err: Option<string>)
      reads stick, stick.zones, zs0
    {
      var op := ExtractToken(mem, pos);
      var zn := ExtractToken(mem, op.next);
      (op.token == "add" ==> logged == [] && err == None && ZoneAdded(zn.token)) &&
      (op.token != "add" ==> ZoneEdited(zs0, op.token, zn.token, mem, zn.next, logged, err))
    }

    /**
     * stickzone: "add" makes the zone unless it exists; the other
     * operations need the zone and set its action, set its bounds, or
     * remove it.  A missing zone, an action that does not parse and
     * bounds that do not parse are errors; an unknown operation is logged.
     */
    method StickZoneCommand(mem: string, pos: int) returns (logged: seq<string>, err: Option<string>)
      requires Valid()
      modifies stick, stick.zones
      ensures Valid() && stick.Settings() == old(stick.Settings())
      ensures forall z | z in stick.zones :: z in old(stick.zones) || fresh(z)
      ensures StickZoned(old(stick.zones), mem, pos, logged, err)
    {
      var operation, rest := ExtractToken(mem, pos).token, ExtractToken(mem, pos).next;
      var zonename, rest2 := ExtractToken(mem, rest).token, ExtractToken(mem, rest).next;
      if operation == "add" {
        var _ := stick.Zone(zonename, true);
        return [], None;
      }
      logged, err := StickZoneEdit(operation, zonename, mem, rest2);
    }

    /** The stickzone operations other than add. */
    method StickZoneEdit(op: string, name: string, mem: string, pos: int) returns (logged: seq<string>, err: Option<string>)
      requires Valid()
      modifies stick, stick.zones
      ensures Valid() && stick.Settings() == old(stick.Settings())
      ensures ZoneEdited(old(stick.zones), op, name, mem, pos, logged, err)
      ensures forall z | z in stick.zones :: z in old(stick.zones)
    {
      var zone := stick.Zone(name, false);
      if zone == null {
        return [], Some("Unknown stick zone");
      }
      logged, err := EditFound(zone, op, name, mem, pos);
    }

    /** stickzone on the zone the name finds: remove it, or edit it. */
    method EditFound(zone: StickZone, op: string, name: string, mem: string, pos: int)
      returns (logged: seq<string>, err: Option<string>)
      requires Valid() && FirstNamed(stick.zones, name).Some? && zone == stick.zones[FirstNamed(stick.zones, name).value]
      modifies stick, stick.zones
      ensures Valid() && stick.Settings() == old(stick.Settings())
      ensures ZoneEdited(old(stick.zones), op, name, mem, pos, logged, err)
      ensures forall z | z in stick.zones :: z in old(stick.zones)
    {
      ghost var i := FirstNamed(stick.zones, name).value;
      OthersAreOtherObjects(stick.zones, i);
      if op == "del" {
        RemoveNamedMembers(stick.zones, name);
        stick.RemoveZone(zone);
        return [], None;
      }
      logged, err := EditZone(zone, op, mem, pos);
    }

    /** stickzone action, bounds, or an unknown operation, on one zone. */
    method EditZone(zone: StickZone, op: string, mem: string, pos: int) returns (logged: seq<string>, err: Option<string>)
      requires op != "del"
      modifies zone
      ensures var made := MakeActionSpec(inputNameToKey, CString(mem, pos));
        var b := ParseBounds(strtod, mem, pos);
        zone.State() == EditedZone(op, old(zone.State()), made, b) &&
        (op == "action" ==> logged == [] && err == (if made.Failure? then Some(made.error) else None)) &&
        (op == "bounds" ==>
           (b.None? ==> logged == [] && err == Some("bad bounds format")) &&
           (b.Some? ==> logged == [BoundsMessage(formatDouble, b.value)] && err == None)) &&
        (op !in {"action", "bounds", "del"} ==> logged == ["Unknown stickzone operation: <" + op + ">"] && err == None)
    {
      logged, err := [], None;
      if op == "action" {
        var made := MakeActionSpec(inputNameToKey, CString(mem, pos));
        if made.Failure? {
          return [], Some(made.error);
        }
        zone.SetAction(Some(made.value));
      } else if op == "bounds" {
        var b := ParseBounds(strtod, mem, pos);
        if b.None? {
          return [], Some("bad bounds format");
        }
        logged := [BoundsMessage(formatDouble, b.value)];
        zone.SetBounds(b.value);
      } else {
        logged := ["Unknown stickzone operation: <" + op + ">"];
      }
    }

    /** std::regex_match against one compiled pattern. */
    function Matcher(rx: string): (r: string -> bool)
      ensures forall n :: r(n) == regexMatch(rx, n)
    {
      n => regexMatch(rx, n)
    }

    /** delete profile: every matching name is erased from the map; a current profile stays current. */
    method DeleteProfiles(rx: string) returns (names: seq<string>)
      requires Valid()
      modifies this
      ensures Valid() && Frame() == old(Frame())
      ensures forall n :: n in names <==> n in old(profiles) && regexMatch(rx, n)
      ensures forall i, j | 0 <= i < j < |names| :: names[i] != names[j]
      ensures forall n :: n in profiles <==> n in old(profiles) && n !in names
      ensures forall n | n in profiles :: profiles[n] == old(profiles[n])
      ensures current == old(current) && allProfiles == old(allProfiles)
      ensures SameFonts() && SameSinks() && inputPipeFifo == old(inputPipeFifo)
    {
      names := FilteredProfileNames(rx);
      var kept := profiles;
      for j := 0 to |names|
        invariant forall n :: n in kept <==> n in profiles && n !in names[..j]
        invariant forall n | n in kept :: kept[n] == profiles[n]
      {
        assert names[..j + 1] == names[..j] + [names[j]];
        kept := kept - {names[j]};
      }
      assert names[..|names|] == names;
      profiles := kept;
    }

    /** delete key: every bound slot of the current profile whose name matches is unbound. */
    method DeleteKeys(rx: string) returns (names: seq<string>)
      requires current.Valid()
      modifies current
      ensures current.Valid()
      ensures names == old(current.FilteredKeyNames(Matcher(rx), false))
      ensures |current.keys| == |old(current.keys)|
      ensures forall i | 0 <= i < |current.keys| ::
        current.keys[i] == if Kept(old(current.keys[i]), Matcher(rx), false)
                           then old(current.keys[i]).(action := None) else old(current.keys[i])
    {
      names := current.FilteredKeyNames(Matcher(rx), false);
      ghost var k0 := current.keys;
      FilterKeysSlots(k0, Matcher(rx), false);
      for j := 0 to |names|
        invariant current.Valid() && |current.keys| == |k0|
        invariant forall i | 0 <= i < |k0| ::
          current.keys[i] == if k0[i].name in names[..j] then k0[i].(action := None) else k0[i]
      {
        UnbindFound(k0, names, Matcher(rx), j);
        var slot := current.FindKey(names[j]);
        UnbindStep(k0, current.keys, names, j, slot.value);
        current.SetAction(slot.value, None);
      }
      assert names[..|names|] == names;
    }

    /** delete zone: every zone whose name matches is removed, in list order. */
    method DeleteZones(rx: string) returns (names: seq<string>)
      requires stick.Valid()
      modifies stick
      ensures stick.Valid() && stick.Settings() == old(stick.Settings())
      ensures names == old(stick.FilteredZoneNames(Matcher(rx)))
      ensures stick.zones == Without(old(stick.zones), names)
      ensures forall z :: z in stick.zones <==> z in old(stick.zones) && !regexMatch(rx, z.name)
    {
      names := stick.FilteredZoneNames(Matcher(rx));
      ghost var zs0 := stick.zones;
      FilterZonesDistinct(zs0, Matcher(rx));
      WithoutNothing(zs0);
      for j := 0 to |names|
        invariant stick.Valid() && stick.Settings() == old(stick.Settings())
        invariant stick.zones == Without(zs0, names[..j])
      {
        RemoveStep(zs0, names, j);
        var z := stick.Zone(names[j], false);
        stick.RemoveZone(z);
      }
      assert names[..|names|] == names;
      WithoutMatching(zs0, names, Matcher(rx));
    }

    /**
     * What delete does once the glob has been translated to rx: the
     * profiles, the bound keys of the current profile, or the stick zones
     * whose names rx matches are erased, unbound or removed, each is
     * logged, and so is a pattern that matched nothing; an unknown target
     * is logged and changes nothing.
     */
    twostate predicate Deleted(target: string, glob: string, rx: string, logged: seq<string>, names: seq<string>)
      reads this`profiles, this`current, current, stick
    {
      (target == "profile" ==>
         logged == DeleteLog("Profile ", names, " deleted", target, glob) &&
         (forall n :: n in names <==> n in old(profiles) && regexMatch(rx, n)) &&
         (forall n :: n in profiles <==> n in old(profiles) && !regexMatch(rx, n)) &&
         (forall n | n in profiles :: profiles[n] == old(profiles[n]))) &&
      (target != "profile" ==> profiles == old(profiles)) &&
      (target == "key" ==>
         logged == DeleteLog("Key ", names, " unbound", target, glob) &&
         names == old(current.FilteredKeyNames(Matcher(rx), false)) &&
         |current.keys| == |old(current.keys)| &&
         forall i | 0 <= i < |current.keys| ::
           current.keys[i] == if Kept(old(current.keys[i]), Matcher(rx), false)
                              then old(current.keys[i]).(action := None) else old(current.keys[i])) &&
      (target != "key" ==> current.keys == old(current.keys)) &&
      (target == "zone" ==>
         logged == DeleteLog("stickzone ", names, " unbound", target, glob) &&
         names == old(stick.FilteredZoneNames(Matcher(rx))) &&
         stick.zones == Without(old(stick.zones), names)) &&
      (target != "zone" ==> stick.zones == old(stick.zones)) &&
      (target !in {"profile", "key", "zone"} ==> logged == ["Unknown delete target: <" + target + ">"])
    }

    /**
     * delete: the target and the glob are read, the glob is translated
     * to a regular expression, and the matching names are deleted.  A
     * translation that is not a valid regular expression is an error.
     */
    method DeleteCommand(mem: string, pos: int) returns (logged: seq<string>, err: Option<string>, names: seq<string>)
      requires Valid()
      modifies this, current, stick
      ensures Valid() && Frame() <= old(Frame()) && stick.Settings() == old(stick.Settings())
      ensures current == old(current) && allProfiles == old(allProfiles)
      ensures SameFonts() && SameSinks() && inputPipeFifo == old(inputPipeFifo)
      ensures var t := ExtractToken(mem, pos);
        var g := ExtractToken(mem, t.next).token;
        var rx := Translate(g, Current);
        (regexError(rx).Some? ==>
           err == regexError(rx) && logged == [] &&
           profiles == old(profiles) && current.keys == old(current.keys) && stick.zones == old(stick.zones)) &&
        (regexError(rx).None? ==> err == None && Deleted(t.token, g, rx, logged, names))
    {
      var target, rest := ExtractToken(mem, pos).token, ExtractToken(mem, pos).next;
      var glob := ExtractToken(mem, rest).token;
      var rx := GlobToRegex(glob, Current);
      if regexError(rx).Some? {
        return [], regexError(rx), [];
      }
      logged, names := DeleteMatching(target, glob, rx);
      err := None;
    }

    /** The deletion itself, by target. */
    method DeleteMatching(target: string, glob: string, rx: string) returns (logged: seq<string>, names: seq<string>)
      requires Valid()
      modifies this, current, stick
      ensures Valid() && Frame() <= old(Frame()) && stick.Settings() == old(stick.Settings())
      ensures current == old(current) && allProfiles == old(allProfiles)
      ensures SameFonts() && SameSinks() && inputPipeFifo == old(inputPipeFifo)
      ensures Deleted(target, glob, rx, logged, names)
    {
      names := [];
      if target == "profile" {
        names := DeleteProfiles(rx);
        logged := DeleteLog("Profile ", names, " deleted", target, glob);
      } else if target == "key" {
        names := DeleteKeys(rx);
        logged := DeleteLog("Key ", names, " unbound", target, glob);
      } else if target == "zone" {
        names := DeleteZones(rx);
        logged := DeleteLog("stickzone ", names, " unbound", target, glob);
      } else {
        logged := ["Unknown delete target: <" + target + ">"];
      }
    }

    // ------------------------------------------------------------ Command

    /**
     * Command: run one command line, the text at pos.  An empty line does
     * nothing; otherwise the line is announced when an info tag is given,
     * an unknown verb is logged, and a known one runs its handler, the
     * error a handler throws being logged.
     */
    method Command(mem: string, pos: int, info: Option<string>)
      requires Valid()
      modifies Frame()
      decreases Budget(), 8
      ensures Stepped()
      ensures var cmd := ExtractToken(mem, pos).token;
        (cmd == "" ==> unchanged(this) && OnlyLogged()) &&
        (cmd != "" ==> old(log) + Announced(mem, pos, info) <= log) &&
        (cmd != "" && cmd !in COMMANDS ==>
           log == old(log) + Announced(mem, pos, info) + ["unknown command : " + cmd] && OnlyLogged())
    {
      var cmd, rest := ExtractToken(mem, pos).token, ExtractToken(mem, pos).next;
      if cmd != "" {
        Dispatch(cmd, mem, rest, Announced(mem, pos, info));
      }
    }

    /** A verb, announced: an unknown one is logged, a known one runs. */
    method Dispatch(cmd: string, mem: string, pos: int, announced: seq<string>)
      requires Valid()
      modifies Frame()
      decreases Budget(), 7
      ensures Stepped() && old(log) + announced <= log
      ensures cmd !in COMMANDS ==> log == old(log) + announced + ["unknown command : " + cmd] && OnlyLogged()
    {
      if cmd !in COMMANDS {
        log := log + announced + ["unknown command : " + cmd];
      } else {
        RunAnnounced(cmd, mem, pos, announced);
      }
    }

    /** A known verb: the announcement is logged, then the handler runs. */
    method RunAnnounced(cmd: string, mem: string, pos: int, announced: seq<string>)
      requires Valid() && cmd in COMMANDS
      modifies Frame()
      decreases Budget(), 6
      ensures Stepped() && old(log) + announced <= log
    {
      log := log + announced;
      label Announced:
      Run(cmd, mem, pos);
      assert forall o | o in Frame() && o !in old(Frame()) :: !old@Announced(allocated(o));
    }

    /** The command table: the handler of a known verb, on the rest of the line. */
    method Run(cmd: string, mem: string, pos: int)
      requires Valid() && cmd in COMMANDS
      modifies Frame()
      decreases Budget(), 5
      ensures Stepped()
    {
      match cmd {
        case "out" => RunOut(mem, pos);
        case "pos" => RunPos(mem, pos);
        case "bind" => RunBind(mem, pos);
        case "profile" => RunProfile(mem, pos);
        case "font" => RunFont(mem, pos);
        case "mod" => RunMod(mem, pos);
        case "textmode" => RunTextMode(mem, pos);
        case "rgb" => RunRgb(mem, pos);
        case "stickmode" => RunStickMode(mem, pos);
        case "stickzone" => var _, _ := RunStickZone(mem, pos);
        case "dump" => RunDump(mem, pos);
        case "log_level" =>
        case "refresh" => RunRefresh();
        case "clear" => RunClear();
        case "delete" => var _, _, _ := RunDelete(mem, pos);
        case "load" => RunLoad(mem, pos);
      }
    }

    /** What every table entry keeps, the log only growing. */
    twostate predicate Stepped()
      reads this, keys, screen, stick, allProfiles, loading
    {
      Evolved() && old(log) <= log
    }

    method RunOut(mem: string, pos: int)
      requires Valid()
      modifies this, screen, screen.image
      ensures Stepped()
    {
      var logged := OutCommand(mem, pos);
      log := log + logged;
    }

    method RunPos(mem: string, pos: int)
      requires Valid()
      modifies this, screen
      ensures Stepped()
    {
      var logged := PosCommand(mem, pos);
      log := log + logged;
    }

    method RunTextMode(mem: string, pos: int)
      requires Valid()
      modifies this, screen
      ensures Stepped()
    {
      var logged := TextModeCommand(mem, pos);
      log := log + logged;
    }

    method RunClear()
      requires Valid()
      modifies screen, screen.image
      ensures Stepped()
    {
      ClearCommand();
    }

    /** refresh: the image is sent again, as it is. */
    method RunRefresh()
      requires Valid()
      modifies screen
      ensures Stepped()
      ensures screen.sent == old(screen.sent) + [Packet(screen.image[..SCREEN_BUF_SIZE])]
      ensures screen.image[..] == old(screen.image[..]) && screen.Cur() == old(screen.Cur())
    {
      screen.ImageSend();
    }

    method RunFont(mem: string, pos: int)
      requires Valid()
      modifies this
      ensures Stepped()
    {
      var name := ExtractToken(mem, pos).token;
      var _ := SwitchToFont(name);
    }

    method RunBind(mem: string, pos: int)
      requires Valid()
      modifies this, current, stick, stick.zones
      ensures Stepped()
    {
      var b := BindCommandArguments(mem, pos);
      RunBindArguments(b.keyname, b.action);
    }

    method RunBindArguments(keyname: string, action: string)
      requires Valid()
      modifies this, current, stick, stick.zones
      ensures Stepped()
    {
      Bind(keyname, action);
    }

    method RunProfile(mem: string, pos: int)
      requires Valid()
      modifies this
      ensures Stepped()
    {
      var name := ExtractToken(mem, pos).token;
      SwitchToProfile(name);
    }

    /** delete, as Command runs it: what DeleteCommand logs, then the error it throws. */
    method RunDelete(mem: string, pos: int) returns (logged: seq<string>, err: Option<string>, names: seq<string>)
      requires Valid()
      modifies this, current, stick
      ensures Stepped() && log == old(log) + logged + Failed(err)
      ensures stick.Settings() == old(stick.Settings()) && current == old(current) && allProfiles == old(allProfiles)
      ensures SameFonts() && inputPipeFifo == old(inputPipeFifo)
      ensures events == old(events) && pipeOut == old(pipeOut) && control == old(control)
      ensures var t := ExtractToken(mem, pos);
        var g := ExtractToken(mem, t.next).token;
        var rx := Translate(g, Current);
        (regexError(rx).Some? ==>
           err == regexError(rx) && logged == [] &&
           profiles == old(profiles) && current.keys == old(current.keys) && stick.zones == old(stick.zones)) &&
        (regexError(rx).None? ==> err == None && Deleted(t.token, g, rx, logged, names))
    {
      logged, err, names := DeleteCommand(mem, pos);
      log := log + logged + Failed(err);
    }

    method RunStickMode(mem: string, pos: int)
      requires Valid()
      modifies this, stick
      ensures Stepped()
    {
      var logged := StickModeCommand(mem, pos);
      log := log + logged;
    }

    /** stickzone, as Command runs it: what StickZoneCommand logs, then the error it throws. */
    method RunStickZone(mem: string, pos: int) returns (logged: seq<string>, err: Option<string>)
      requires Valid()
      modifies this`log, stick, stick.zones
      ensures Stepped() && log == old(log) + logged + Failed(err)
      ensures stick.Settings() == old(stick.Settings())
      ensures StickZoned(old(stick.zones), mem, pos, logged, err)
    {
      logged, err := StickZoneLogged(mem, pos);
    }

    /** StickZoneCommand, then its lines and its error logged. */
    method StickZoneLogged(mem: string, pos: int) returns (logged: seq<string>, err: Option<string>)
      requires Valid()
      modifies this`log, stick, stick.zones
      ensures Valid() && stick.Settings() == old(stick.Settings())
      ensures forall z | z in stick.zones :: z in old(stick.zones) || fresh(z)
      ensures log == old(log) + logged + Failed(err)
      ensures StickZoned(old(stick.zones), mem, pos, logged, err)
    {
      logged, err := StickZoneCommand(mem, pos);
      log := log + logged + Failed(err);
    }

    method RunMod(mem: string, pos: int)
      requires Valid()
      modifies this
      ensures Stepped()
    {
      var logged := ModCommand(mem, pos);
      log := log + logged;
    }

    method RunRgb(mem: string, pos: int)
      requires Valid()
      modifies this
      ensures Stepped()
    {
      var logged := RgbCommand(mem, pos);
      log := log + logged;
    }

    method RunDump(mem: string, pos: int)
      requires Valid()
      modifies this
      ensures Stepped()
    {
      var logged := DumpCommand(mem, pos);
      log := log + logged;
    }

    /** load: the file named by the next token, tagged one '>' deeper than the files being loaded. */
    method RunLoad(mem: string, pos: int)
      requires Valid()
      modifies Frame()
      decreases Budget(), 4
      ensures Stepped()
      ensures var filename := ExtractToken(mem, pos).token;
        var clean := normalizePath(old(loading.names), filename);
        (clean in old(loading.names) ==> log == old(log) + [filename + " loading recursion"] && OnlyLogged()) &&
        (clean !in old(loading.names) && clean !in files ==> log == old(log) + [openError(clean)] && OnlyLogged())
    {
      var filename := ExtractToken(mem, pos).token;
      ReadCommandsFromFile(filename, Some(LoadInfo(|loading.names|)));
    }

    /**
     * ReadCommandsFromFile: the name is resolved against the files being
     * loaded; a file already being loaded is logged and skipped, a file
     * that does not open is logged, and otherwise every line of the file
     * is run as a command while the file is on the load stack.
     */
    method ReadCommandsFromFile(filename: string, info: Option<string>)
      requires Valid()
      modifies Frame()
      decreases Budget(), 3
      ensures Stepped()
      ensures var clean := normalizePath(old(loading.names), filename);
        (clean in old(loading.names) ==> log == old(log) + [filename + " loading recursion"] && OnlyLogged()) &&
        (clean !in old(loading.names) && clean !in files ==> log == old(log) + [openError(clean)] && OnlyLogged())
    {
      var clean := normalizePath(loading.names, filename);
      if clean in loading.names {
        log := log + [filename + " loading recursion"];
        return;
      }
      if clean !in files {
        log := log + [openError(clean)];
        return;
      }
      LoadFile(clean, info);
    }

    /** The file, pushed on the load stack while it is read, and popped afterwards. */
    method LoadFile(clean: string, info: Option<string>)
      requires Valid() && clean !in loading.names && clean in files
      modifies Frame()
      decreases Budget(), 2
      ensures Stepped()
    {
      var stack := loading.names;
      loading.names := loading.names + [clean];
      label Pushed:
      ReadPushed(files[clean], info, stack, clean);
      assert forall o | o in Frame() && o !in old(Frame()) :: !old@Pushed(allocated(o));
      loading.names := stack;
    }

    /** The lines of a file that has just been pushed on the load stack. */
    method ReadPushed(lines: seq<string>, info: Option<string>, ghost stack: seq<string>, ghost clean: string)
      requires Valid() && loading.names == stack + [clean] && clean in files && clean !in stack
      modifies Frame()
      decreases Remaining(files.Keys, stack), 1
      ensures Stepped()
    {
      BudgetShrinks(files.Keys, stack, clean);
      RunLines(lines, info, Remaining(files.Keys, stack));
    }

    /** The getline loop: every line of the file, in order, as a command. */
    method RunLines(lines: seq<string>, info: Option<string>, ghost outer: nat)
      requires Valid() && Budget() < outer
      modifies Frame()
      decreases outer, 0
      ensures Stepped()
    {
      for i := 0 to |lines|
        invariant Stepped()
      {
        ghost var before := Frame();
        label Line:
        Command(lines[i], 0, info);
        assert forall o | o in Frame() && o !in before :: !old@Line(allocated(o));
      }
    }

    // ------------------------------------------------- key reports and effects

    /** What a key report may change: everything Evolved keeps except the key-state array. */
    twostate predicate Parsed()
      reads this, screen, stick, allProfiles, loading
    {
      Valid() && fresh(Frame() - old(Frame())) && old(allProfiles) <= allProfiles &&
      loading.names == old(loading.names) &&
      old(events) <= events && old(pipeOut) <= pipeOut && old(log) <= log && old(control) <= control
    }

    /** Nothing but the key-state array and the uinput and output-pipe sinks changed. */
    twostate predicate OnlySent()
      reads this, screen, screen.image, stick, stick.zones, allProfiles, loading
    {
      SameProfiles() && SameFonts() && log == old(log) && control == old(control) &&
      inputPipeFifo == old(inputPipeFifo) && loading.names == old(loading.names) &&
      unchanged(screen, screen.image, stick, loading) && unchanged(allProfiles) && unchanged(stick.zones)
    }

    /** Key events go to uinput and pipe text to the output pipe; no other state changes. */
    method Emit(e: Effect)
      requires !e.Resubmit?
      modifies this`events, this`pipeOut
      ensures events == old(events) + EffectEvents(e) && pipeOut == old(pipeOut) + EffectTexts(e)
    {
      match e
      case SendEvents(k) => events := events + KeyInputs(k);
      case PipeWrite(t) => pipeOut := pipeOut + [t];
      case NoEffect =>
    }

    /** What firing an effect sends: its key events and pipe text, or its command's announcement. */
    twostate predicate Acted(e: Effect)
      reads this
    {
      if e.Resubmit? then
        var cmd := ExtractToken(e.cmd, 0).token;
        (cmd == "" ==> SameSinks()) && (cmd != "" ==> old(log) + Announced(e.cmd, 0, None) <= log)
      else
        events == old(events) + EffectEvents(e) && pipeOut == old(pipeOut) + EffectTexts(e)
    }

    /**
     * What an action's act does to the device: a KeyAction sends its
     * events, a PipeOutAction writes its text, and a CommandAction runs its
     * command through Command, with no info tag.
     */
    method Fire(e: Effect)
      requires Valid()
      modifies Frame()
      ensures Stepped() && Acted(e)
      ensures !e.Resubmit? ==> OnlySent()
    {
      if e.Resubmit? {
        Command(e.cmd, 0, None);
      } else {
        Emit(e);
      }
    }

    /** The effects of the zones, fired in order. */
    method FireAll(es: seq<Effect>)
      requires Valid()
      modifies Frame()
      ensures Stepped()
      ensures NoCommands(es) ==> Output() == old((events + EventsOf(es), pipeOut + PipeTextsOf(es), log, control))
    {
      assert es[..0] == [] && events + [] == events && pipeOut + [] == pipeOut;
      for i := 0 to |es|
        invariant Stepped()
        invariant NoCommands(es[..i]) ==>
          Output() == old((events + EventsOf(es[..i]), pipeOut + PipeTextsOf(es[..i]), log, control))
      {
        label Step:
        FireNext(es, i, old(Output()));
        assert forall o | o in Frame() && o !in old@Step(Frame()) :: !old@Step(allocated(o));
      }
      WholePrefix(es);
    }

    /** One turn of FireAll: the effect at i fires, extending what the earlier ones sent. */
    method FireNext(es: seq<Effect>, i: nat, ghost output0: (seq<InputEvent>, seq<string>, seq<string>, seq<ControlWrite>))
      requires Valid() && i < |es|
      requires NoCommands(es[..i]) ==>
        Output() == (output0.0 + EventsOf(es[..i]), output0.1 + PipeTextsOf(es[..i]), output0.2, output0.3)
      modifies Frame()
      ensures Stepped()
      ensures NoCommands(es[..i + 1]) ==>
        Output() == (output0.0 + EventsOf(es[..i + 1]), output0.1 + PipeTextsOf(es[..i + 1]), output0.2, output0.3)
    {
      SentStep(es, i, output0.0, output0.1);
      assert es[..i + 1][i] == es[i];
      assert forall j | 0 <= j < i :: es[..i + 1][j] == es[..i][j];
      Fire(es[i]);
    }

    /**
     * Key::ParseKey: the key's bit of the report is stored in keys[]; when
     * that changes the recorded state and an action is bound, the action
     * acts with the new state.
     */
    method ParseKey(k: Key, report: seq<bv8>)
      requires Valid() && 0 <= k.index.index < NUM_KEYS && k.index == MakeKeyIndex(k.index.index)
      requires |report| == REPORT_SIZE
      modifies Frame()
      ensures Parsed()
      ensures keys[..] == old(keys[..])[k.index.index := ReportBit(report, k.index.index)]
      ensures var bit := ReportBit(report, k.index.index);
        bit == old(keys[k.index.index]) || k.action.None? ==> OnlySent() && events == old(events) && pipeOut == old(pipeOut)
      ensures var bit := ReportBit(report, k.index.index);
        bit != old(keys[k.index.index]) && k.action.Some? ==>
          Acted(ActEffect(k.action.value, bit)) && (!ActEffect(k.action.value, bit).Resubmit? ==> OnlySent())
    {
      var state := ReportBit(report, k.index.index);
      var changed := UpdateKeyState(k.index.index, state);
      if changed && k.action.Some? {
        ghost var recorded := keys[..];
        label Updated:
        Fire(ActEffect(k.action.value, state));
        assert forall o | o in Frame() && o !in old@Updated(Frame()) :: !old@Updated(allocated(o));
        assert keys[..] == recorded;
      }
    }

    /** What the device has sent, all four sinks together. */
    function Output(): (seq<InputEvent>, seq<string>, seq<string>, seq<ControlWrite>)
      reads this
    {
      (events, pipeOut, log, control)
    }

    /**
     * Profile::ParseKeys on profile p: every slot, in order, that is read
     * parses its bit of the report, the bytes counting from byte 3.  Every
     * read slot ends up holding its bit in keys[], the others keep theirs,
     * and a report that changes no read slot sends nothing.
     */
    method ParseKeys(p: Profile, report: seq<bv8>)
      requires Valid() && p in allProfiles && |report| == REPORT_SIZE
      modifies Frame()
      ensures Parsed()
      ensures keys[..] == ParsedState(report, old(keys[..]), NUM_KEYS)
      ensures Settled(report, old(keys[..]), NUM_KEYS) ==> Output() == old(Output())
    {
      for i := 0 to NUM_KEYS
        invariant Parsed() && p in allProfiles
        invariant keys[..] == ParsedState(report, old(keys[..]), i)
        invariant Settled(report, old(keys[..]), i) ==> Output() == old(Output())
      {
        label Visit:
        ParseNext(p, i, report, old(keys[..]), old(Output()));
        assert forall o | o in Frame() && o !in old@Visit(Frame()) :: !old@Visit(allocated(o));
      }
    }

    /** One turn of ParseKeys: slot i of p, if it is read. */
    method ParseNext(p: Profile, i: nat, report: seq<bv8>, ghost keys0: seq<bool>,
                     ghost output0: (seq<InputEvent>, seq<string>, seq<string>, seq<ControlWrite>))
      requires Valid() && p in allProfiles && i < NUM_KEYS && |report| == REPORT_SIZE && |keys0| == NUM_KEYS
      requires keys[..] == ParsedState(report, keys0, i)
      requires Settled(report, keys0, i) ==> Output() == output0
      modifies Frame()
      ensures Parsed()
      ensures keys[..] == ParsedState(report, keys0, i + 1)
      ensures Settled(report, keys0, i + 1) ==> Output() == output0
    {
      ParsedStateStep(report, keys0, i);
      assert p.Valid();
      var k := p.keys[i];
      if k.shouldParse {
        ParseKey(k, report);
      }
    }

    /**
     * ReadDeviceInputs once the transfer is over: a report of any size but
     * 8 is dropped; otherwise the stick reads it, then the current profile
     * parses its keys, and a SYN_REPORT event ends the batch.  The profile
     * is looked up after the stick, whose actions may have switched it.
     */
    method HandleReport(report: seq<bv8>)
      requires Valid()
      modifies Frame()
      ensures Parsed()
      ensures |report| != REPORT_SIZE ==>
        unchanged(this, keys, screen, screen.image, stick, loading) && unchanged(allProfiles) && unchanged(stick.zones)
      ensures |report| == REPORT_SIZE ==>
        keys[..] == ParsedState(report, old(keys[..]), NUM_KEYS) &&
        |events| > 0 && events[|events| - 1] == InputEvent(EV_SYN, SYN_REPORT, 0)
      ensures |report| == REPORT_SIZE && old(stick.mode) == Absolute ==>
        old(events) + [InputEvent(EV_ABS, ABS_X, report[1] as int), InputEvent(EV_ABS, ABS_Y, report[2] as int)] <= events
      ensures |report| == REPORT_SIZE && IsCalibration(old(stick.mode)) && Settled(report, old(keys[..]), NUM_KEYS) ==>
        Output() == old((events + [InputEvent(EV_SYN, SYN_REPORT, 0)], pipeOut, log, control))
    {
      if |report| != REPORT_SIZE {
        return;
      }
      ReadReport(report);
      SendSyn();
    }

    /** The stick, then the keys of the profile that is current once the stick is done. */
    method ReadReport(report: seq<bv8>)
      requires Valid() && |report| == REPORT_SIZE
      modifies Frame()
      ensures Parsed()
      ensures keys[..] == ParsedState(report, old(keys[..]), NUM_KEYS)
      ensures old(stick.mode) == Absolute ==>
        old(events) + [InputEvent(EV_ABS, ABS_X, report[1] as int), InputEvent(EV_ABS, ABS_Y, report[2] as int)] <= events
      ensures IsCalibration(old(stick.mode)) && Settled(report, old(keys[..]), NUM_KEYS) ==> Output() == old(Output())
    {
      ghost var keys0 := keys[..];
      ReadStick(report);
      assert keys[..] == keys0;
      label Stick:
      ParseKeys(current, report);
      assert forall o | o in Frame() && o !in old@Stick(Frame()) :: !old@Stick(allocated(o));
    }

    /** SendEvent(EV_SYN, SYN_REPORT, 0). */
    method SendSyn()
      modifies this`events
      ensures events == old(events) + [InputEvent(EV_SYN, SYN_REPORT, 0)]
    {
      events := events + [InputEvent(EV_SYN, SYN_REPORT, 0)];
    }

    /**
     * Stick::ParseJoystick as the device sees it: ABSOLUTE sends the raw x
     * then y, KEYS fires what the zones ask for in list order, and a
     * calibration mode sends nothing.
     */
    method ReadStick(report: seq<bv8>)
      requires Valid() && |report| == REPORT_SIZE
      modifies Frame()
      ensures Stepped()
      ensures old(stick.mode) == Absolute ==>
        Output() == old((events + [InputEvent(EV_ABS, ABS_X, report[1] as int), InputEvent(EV_ABS, ABS_Y, report[2] as int)],
                         pipeOut, log, control))
      ensures IsCalibration(old(stick.mode)) ==> Output() == old(Output())
      ensures old(stick.mode) == Keys ==>
        var loc := normalizeStick(old(stick.bounds), old(stick.center), StickCoord(report[1] as int, report[2] as int));
        var es := TestAll(old(States(stick.zones)), loc).1;
        NoCommands(es) ==> Output() == old((events + EventsOf(es), pipeOut + PipeTextsOf(es), log, control))
    {
      var out := Joystick(report);
      label Joystick:
      Deliver(out);
      assert forall o | o in Frame() && o !in old@Joystick(Frame()) :: !old@Joystick(allocated(o));
    }

    /** The stick's part of ParseJoystick: what it hands on, by the mode it was in. */
    method Joystick(report: seq<bv8>) returns (out: StickOutput)
      requires Valid() && |report| == REPORT_SIZE
      modifies stick, stick.zones
      ensures Valid() && Frame() == old(Frame())
      ensures old(stick.mode) == Absolute ==> out == AbsoluteAxes(report[1] as int, report[2] as int)
      ensures IsCalibration(old(stick.mode)) ==> out == Calibrated
      ensures old(stick.mode) == Keys ==>
        var loc := normalizeStick(old(stick.bounds), old(stick.center), StickCoord(report[1] as int, report[2] as int));
        out == ZoneEffects(TestAll(old(States(stick.zones)), loc).1)
    {
      out := stick.ParseJoystick(report, normalizeStick);
    }

    /** What ParseJoystick hands on, delivered: the raw axes as ABS events, or the zones' effects fired. */
    method Deliver(out: StickOutput)
      requires Valid()
      modifies Frame()
      ensures Stepped()
      ensures out.AbsoluteAxes? ==>
        Output() == old((events + [InputEvent(EV_ABS, ABS_X, out.x), InputEvent(EV_ABS, ABS_Y, out.y)], pipeOut, log, control))
      ensures out.Calibrated? ==> Output() == old(Output())
      ensures out.ZoneEffects? && NoCommands(out.effects) ==>
        Output() == old((events + EventsOf(out.effects), pipeOut + PipeTextsOf(out.effects), log, control))
    {
      if out.AbsoluteAxes? {
        SendAxes(out.x, out.y);
      } else if out.ZoneEffects? {
        FireAll(out.effects);
      }
    }

    /** SendEvent of the x then the y axis. */
    method SendAxes(x: int, y: int)
      modifies this`events
      ensures events == old(events) + [InputEvent(EV_ABS, ABS_X, x), InputEvent(EV_ABS, ABS_Y, y)]
    {
      events := events + [InputEvent(EV_ABS, ABS_X, x), InputEvent(EV_ABS, ABS_Y, y)];
    }

    // --------------------------------------------------------- the input pipe

    /**
     * ProcessBuffer: bufferEnd bytes left over from the last read, then
     * readResult new ones.  Exactly 960 bytes in all are an image for the
     * screen, and the leftover is kept as it was.  Otherwise the scan for
     * '\r' and '\n' starts at bufferEnd; every non-empty line has a NUL
     * written over its terminator and runs as a command tagged "command",
     * in order.  The unfinished tail becomes the new leftover only when it
     * is shorter than sizeof(char*), and is dropped otherwise.
     */
    method ProcessBuffer(buffer: array<char>, bufferEnd: nat, readResult: nat) returns (ghost lines: seq<(nat, nat)>)
      requires Valid() && buffer !in Frame() && bufferEnd + readResult <= buffer.Length
      modifies Frame(), buffer
      ensures Stepped()
      ensures bufferEnd + readResult == SCREEN_BUFFER_SIZE ==>
        lines == [] && buffer[..] == old(buffer[..]) && inputPipeFifo == old(inputPipeFifo) && Output() == old(Output()) &&
        screen.sent == old(screen.sent) + [Packet(Bytes(old(buffer[..SCREEN_BUFFER_SIZE])))] &&
        screen.Cur() == old(screen.Cur()) && screen.textMode == old(screen.textMode) &&
        SameProfiles() && SameFonts() && unchanged(keys, screen.image, stick, loading) &&
        unchanged(allProfiles) && unchanged(stick.zones)
      ensures bufferEnd + readResult != SCREEN_BUFFER_SIZE ==>
        var total := bufferEnd + readResult;
        var scan := ScanLines(old(buffer[..]), 0, bufferEnd, total);
        lines == scan.lines && buffer[..] == Cut(old(buffer[..]), lines) && scan.begin <= total &&
        inputPipeFifo == (if total - scan.begin < POINTER_SIZE then buffer[scan.begin..total] else "")
    {
      var total := bufferEnd + readResult;
      if total == SCREEN_BUFFER_SIZE {
        ShowImage(buffer[..total]);
        lines := [];
      } else {
        lines := ProcessLines(buffer, bufferEnd, total);
      }
    }

    /** Screen::Image: the 960 bytes go to the LCD as they are. */
    method ShowImage(data: seq<char>)
      requires Valid() && |data| == SCREEN_BUFFER_SIZE
      modifies screen
      ensures Valid() && screen.sent == old(screen.sent) + [Packet(Bytes(data))]
      ensures screen.Cur() == old(screen.Cur()) && screen.textMode == old(screen.textMode)
    {
      screen.ScreenWrite(Bytes(data));
    }

    /** The text branch of ProcessBuffer: the lines run, then the tail kept or dropped. */
    method ProcessLines(buffer: array<char>, bufferEnd: nat, total: nat) returns (ghost lines: seq<(nat, nat)>)
      requires Valid() && buffer !in Frame() && bufferEnd <= total <= buffer.Length
      modifies Frame(), buffer
      ensures Stepped()
      ensures var scan := ScanLines(old(buffer[..]), 0, bufferEnd, total);
        lines == scan.lines && buffer[..] == Cut(old(buffer[..]), lines) && scan.begin <= total &&
        inputPipeFifo == (if total - scan.begin < POINTER_SIZE then buffer[scan.begin..total] else "")
    {
      var begin;
      begin, lines := RunBufferLines(buffer, bufferEnd, total);
      SetFifo(if total - begin < POINTER_SIZE then buffer[begin..total] else "");
    }

    /** input_pipe_fifo, cleared and then assigned. */
    method SetFifo(rest: string)
      requires Valid()
      modifies this`inputPipeFifo
      ensures Stepped() && Frame() == old(Frame()) && inputPipeFifo == rest
    {
      inputPipeFifo := "";
      inputPipeFifo := rest;
    }

    /** The line loop of ProcessBuffer, from bufferEnd up to total. */
    method RunBufferLines(buffer: array<char>, bufferEnd: nat, total: nat) returns (begin: nat, ghost lines: seq<(nat, nat)>)
      requires Valid() && buffer !in Frame() && bufferEnd <= total <= buffer.Length
      modifies Frame(), buffer
      ensures Stepped() && buffer !in Frame() && begin <= total
      ensures var scan := ScanLines(old(buffer[..]), 0, bufferEnd, total);
        begin == scan.begin && lines == scan.lines && buffer[..] == Cut(old(buffer[..]), lines)
    {
      ghost var buf0 := buffer[..];
      begin, lines := 0, [];
      for i := bufferEnd to total
        invariant Stepped() && buffer !in Frame()
        invariant ScannedTo(buf0, bufferEnd, total, lines, begin, i)
        invariant buffer[..] == Cut(buf0, lines)
      {
        ghost var before := Frame();
        label Scan:
        begin, lines := ScanNext(buffer, buf0, bufferEnd, total, i, begin, lines);
        assert forall o | o in Frame() && o !in before :: !old@Scan(allocated(o));
      }
    }

    /** One turn of the line loop: the byte at i, which may end a line that then runs. */
    method ScanNext(buffer: array<char>, ghost buf0: seq<char>, bufferEnd: nat, total: nat, i: nat, begin: nat,
                    ghost lines: seq<(nat, nat)>) returns (next: nat, ghost linesNext: seq<(nat, nat)>)
      requires Valid() && buffer !in Frame() && bufferEnd <= i < total <= buffer.Length && begin <= i
      requires |buf0| == buffer.Length && buffer[..] == Cut(buf0, lines)
      requires ScannedTo(buf0, bufferEnd, total, lines, begin, i)
      modifies Frame(), buffer
      ensures Stepped() && buffer !in Frame() && next <= i + 1
      ensures ScannedTo(buf0, bufferEnd, total, linesNext, next, i + 1)
      ensures buffer[..] == Cut(buf0, linesNext)
    {
      ScanAdvance(buf0, bufferEnd, total, i, begin, lines);
      linesNext := LineStep(buf0, begin, i, lines).1;
      var eol := buffer[i] == '\r' || buffer[i] == '\n';
      next := if eol then i + 1 else begin;
      label Scanned:
      RunIfLine(buffer, begin, i, eol && i != begin);
      assert forall o | o in Frame() && o !in old@Scanned(Frame()) :: !old@Scanned(allocated(o));
    }

    /** The bytes from begin up to the terminator at i run as a command when they are not empty. */
    method RunIfLine(buffer: array<char>, begin: nat, i: nat, run: bool)
      requires Valid() && buffer !in Frame() && i < buffer.Length
      modifies Frame(), buffer
      ensures Stepped() && buffer !in Frame()
      ensures buffer[..] == if run then old(buffer[..])[i := '\0'] else old(buffer[..])
    {
      if run {
        RunCut(buffer, begin, i);
      }
    }

    /** A line found: a NUL over its terminator, then the line, from its start, as a command. */
    method RunCut(buffer: array<char>, begin: nat, i: nat)
      requires Valid() && buffer !in Frame() && i < buffer.Length
      modifies Frame(), buffer
      ensures Stepped() && buffer !in Frame()
      ensures buffer[..] == old(buffer[..])[i := '\0']
      ensures var mem := old(buffer[..])[i := '\0'];
        var cmd := ExtractToken(mem, begin).token;
        (cmd == "" ==> log == old(log) && OnlyLogged()) &&
        (cmd != "" ==> old(log) + Announced(mem, begin, Some("command")) <= log) &&
        (cmd != "" && cmd !in COMMANDS ==>
           log == old(log) + Announced(mem, begin, Some("command")) + ["unknown command : " + cmd] && OnlyLogged())
    {
      buffer[i] := '\0';
      label Cut:
      Command(buffer[..], begin, Some("command"));
      assert forall o | o in Frame() && o !in old@Cut(Frame()) :: !old@Cut(allocated(o));
    }
  }
}
